/**
 * buildSolution of SudokuSolver.java: reading a grid back from the literals a
 * SAT model reports true.  Each positive literal is decoded into (row, column,
 * value) with remainder and division; when the row and column are on the board
 * the cell is overwritten with value + 1.  The grid is then handed to the
 * Sudoku constructor, which validates it.
 */
module Decoder {
  import opened Wrappers
  import opened Arith
  import opened Indexer
  import opened Board

  /** Why buildSolution produces no Sudoku. */
  datatype SolutionError =
    | DivisionByZero                 // board size 0 and a positive literal: `var % boardSize`
    | Rejected(reason: BoardError)   // the Sudoku constructor throws

  /** lit is a positive literal that the decoder writes into cell (r, c) of an N x N grid. */
  predicate Accepts(N: nat, lit: int, r: int, c: int)
    requires N >= 1
  {
    && lit > 0
    && var s := DecodeVar(lit, N);
       0 <= s.row < N && 0 <= s.col < N && s.row == r && s.col == c
  }

  /**
   * The value cell (r, c) holds after the decoder has read the literals of m in
   * order: value + 1 of the last literal accepted for that cell, or 0 when there
   * is none.
   */
  function CellValue(N: nat, m: seq<int>, r: int, c: int): (x: int)
    requires N >= 1
    ensures 0 <= x <= N
  {
    if m == [] then 0
    else if Accepts(N, m[|m| - 1], r, c) then DecodeVar(m[|m| - 1], N).value + 1
    else CellValue(N, m[..|m| - 1], r, c)
  }

  /** The grid the decoder builds from the model m. */
  function DecodeGrid(N: nat, m: seq<int>): (g: seq<seq<int>>)
    requires N >= 1
    ensures |g| == N && Square(g)
    ensures forall r, c :: 0 <= r < N && 0 <= c < N ==> g[r][c] == CellValue(N, m, r, c)
  {
    seq(N, r requires 0 <= r < N => seq(N, c requires 0 <= c < N => CellValue(N, m, r, c)))
  }

  /** The literals of m include a positive one. */
  predicate HasPositive(m: seq<int>)
  {
    exists i :: 0 <= i < |m| && m[i] > 0
  }

  // ---------------------------------------------------------------------------
  // What the decoder accepts

  /**
   * A literal is accepted for (r, c) exactly when it is the variable of (r, c)
   * and some value v on the board.
   */
  lemma AcceptsVar(N: nat, lit: int, r: int, c: int)
    requires N >= 1
    ensures Accepts(N, lit, r, c) <==>
            0 <= r < N && 0 <= c < N && exists v :: 0 <= v < N && lit == Var(r, c, v, N)
  {
    if Accepts(N, lit, r, c) {
      VarOfDecode(lit, N);
      var v := DecodeVar(lit, N).value;
      assert lit == Var(r, c, v, N);
    }
    if 0 <= r < N && 0 <= c < N && exists v :: 0 <= v < N && lit == Var(r, c, v, N) {
      var v :| 0 <= v < N && lit == Var(r, c, v, N);
      DecodeVarRoundTrip(r, c, v, N);
    }
  }

  /**
   * Non-positive literals and positive literals above N^3 (whose decoded row is
   * off the board) change no cell.
   */
  lemma SkippedLiteral(N: nat, m: seq<int>, lit: int, r: int, c: int)
    requires N >= 1
    requires lit <= 0 || lit > N * N * N
    ensures CellValue(N, m + [lit], r, c) == CellValue(N, m, r, c)
  {
    if lit > 0 {
      DecodeRowInRange(lit, N);
    }
    assert (m + [lit])[..|m|] == m;
  }

  /** A cell holds 0 exactly when no literal of m is accepted for it. */
  lemma {:induction false} EmptyCell(N: nat, m: seq<int>, r: int, c: int)
    requires N >= 1
    ensures CellValue(N, m, r, c) == 0 <==> forall i :: 0 <= i < |m| ==> !Accepts(N, m[i], r, c)
  {
    if m != [] {
      var p := m[..|m| - 1];
      EmptyCell(N, p, r, c);
      assert forall i :: 0 <= i < |p| ==> p[i] == m[i];
    }
  }

  /**
   * When m holds the variable of exactly one value v for cell (r, c), the cell
   * holds v + 1.
   */
  lemma {:induction false} UniqueValue(N: nat, m: seq<int>, r: int, c: int, v: int)
    requires N >= 1 && 0 <= r < N && 0 <= c < N && 0 <= v < N
    requires Var(r, c, v, N) in m
    requires forall w :: 0 <= w < N && w != v ==> Var(r, c, w, N) !in m
    ensures CellValue(N, m, r, c) == v + 1
  {
    var last := m[|m| - 1];
    var p := m[..|m| - 1];
    assert m == p + [last];
    DecodeVarRoundTrip(r, c, v, N);
    if Accepts(N, last, r, c) {
      AcceptsVar(N, last, r, c);
      var w :| 0 <= w < N && last == Var(r, c, w, N);
      assert w == v;
    } else {
      assert Var(r, c, v, N) != last;
      assert Var(r, c, v, N) in p;
      UniqueValue(N, p, r, c, v);
    }
  }

  /** m holds the variable of exactly one value for cell (r, c). */
  predicate OneValue(N: nat, m: seq<int>, r: int, c: int)
  {
    exists v :: 0 <= v < N && Var(r, c, v, N) in m &&
      forall w :: 0 <= w < N && w != v ==> Var(r, c, w, N) !in m
  }

  /** A cell with exactly one value in m is not empty. */
  lemma OneValueCell(N: nat, m: seq<int>, r: int, c: int)
    requires N >= 1 && 0 <= r < N && 0 <= c < N
    requires OneValue(N, m, r, c)
    ensures 1 <= CellValue(N, m, r, c)
  {
    var v :| 0 <= v < N && Var(r, c, v, N) in m &&
             forall w :: 0 <= w < N && w != v ==> Var(r, c, w, N) !in m;
    UniqueValue(N, m, r, c, v);
  }

  /**
   * A model that holds, for every cell, the variable of exactly one value
   * decodes to a grid with no empty cell and every value in 1..N.
   */
  lemma DecodeFilled(N: nat, m: seq<int>)
    requires N >= 1
    requires forall r, c :: 0 <= r < N && 0 <= c < N ==> OneValue(N, m, r, c)
    ensures Filled(DecodeGrid(N, m))
    ensures forall r, c :: 0 <= r < N && 0 <= c < N ==> 1 <= DecodeGrid(N, m)[r][c] <= N
  {
    var g := DecodeGrid(N, m);
    forall r, c | 0 <= r < N && 0 <= c < N
      ensures 1 <= g[r][c]
    {
      OneValueCell(N, m, r, c);
    }
  }

  // ---------------------------------------------------------------------------
  // buildSolution

  /** One more literal read: the cell it is accepted for, if any, now holds its value. */
  lemma CellValueStep(N: nat, m: seq<int>, i: nat, r: int, c: int)
    requires N >= 1 && i < |m|
    ensures CellValue(N, m[..i + 1], r, c) ==
            if Accepts(N, m[i], r, c) then DecodeVar(m[i], N).value + 1 else CellValue(N, m[..i], r, c)
  {
    assert m[..i + 1][..i] == m[..i];
  }

  /** A grid whose every cell is CellValue is the decoded grid; it passes validation unless N is not a square. */
  lemma DecodedBoard(a: array2<int>, N: nat, m: seq<int>)
    requires N >= 1 && a.Length0 == N && a.Length1 == N
    requires forall r, c :: 0 <= r < N && 0 <= c < N ==> a[r, c] == CellValue(N, m, r, c)
    ensures Rows(a) == DecodeGrid(N, m)
    ensures WellFormed(a) <==> IsPerfectSquare(N)
  {
    var g, d := Rows(a), DecodeGrid(N, m);
    assert |g| == |d|;
    forall r | 0 <= r < N
      ensures g[r] == d[r]
    {
      assert |g[r]| == |d[r]|;
    }
  }

  /**
   * buildSolution: the decoded grid of the model, validated by the Sudoku
   * constructor.  The decoded values are always in 0..N, so for N >= 1 the
   * only failure is a size that is not a perfect square; for N = 0 the first
   * positive literal divides by zero and an all-negative model gives an
   * empty board.
   */
  method BuildSolution(boardSize: nat, model: seq<int>) returns (result: Result<Sudoku, SolutionError>)
    ensures boardSize == 0 ==>
              result == Failure(if HasPositive(model) then DivisionByZero else Rejected(EmptyBoard))
    ensures boardSize >= 1 && !IsPerfectSquare(boardSize) ==> result == Failure(Rejected(NotPerfectSquare))
    ensures boardSize >= 1 && IsPerfectSquare(boardSize) ==>
              && result.Success?
              && result.value.Valid()
              && fresh(result.value.board)
              && Rows(result.value.board) == DecodeGrid(boardSize, model)
  {
    var solved := new int[boardSize, boardSize]((_, _) => 0);
    for i := 0 to |model|
      invariant boardSize == 0 ==> !HasPositive(model[..i])
      invariant forall r, c :: 0 <= r < boardSize && 0 <= c < boardSize ==>
                  solved[r, c] == CellValue(boardSize, model[..i], r, c)
    {
      var lit := model[i];
      if lit <= 0 {
        forall r, c | 0 <= r < boardSize && 0 <= c < boardSize {
          CellValueStep(boardSize, model, i, r, c);
        }
        assert boardSize == 0 ==> !HasPositive(model[..i + 1]) by {
          assert forall k :: 0 <= k < i ==> model[..i + 1][k] == model[..i][k];
        }
        continue;
      }
      if boardSize == 0 {
        assert model[i] > 0;
        return Failure(DivisionByZero);
      }
      var x := lit - 1;
      var v := x % boardSize;
      var tmp := x / boardSize;
      var c := tmp % boardSize;
      var r := tmp / boardSize;
      assert DecodeVar(lit, boardSize) == Slot(r, c, v);
      if r >= 0 && r < boardSize && c >= 0 && c < boardSize {
        solved[r, c] := v + 1;
      }
      forall r', c' | 0 <= r' < boardSize && 0 <= c' < boardSize {
        CellValueStep(boardSize, model, i, r', c');
      }
    }
    assert model[..|model|] == model;
    if boardSize >= 1 {
      DecodedBoard(solved, boardSize, model);
    }
    var created := Sudoku.Create(solved);
    match created
    case Success(sudoku) =>
      result := Success(sudoku);
    case Failure(e) =>
      result := Failure(Rejected(e));
  }
}
