/**
 * Sudoku.java: an N x N board (N a perfect square, 0 for an empty cell),
 * validated once when it is constructed, and the checker that decides whether a
 * board is completely and correctly solved.
 */
module Board {
  import opened Wrappers
  import opened Arith
  import opened Seqs

  /** The reasons the constructor rejects a board, in the order it tests them. */
  datatype BoardError =
    | EmptyBoard
    | NotSquare
    | NotPerfectSquare
    | CellOutOfRange(row: nat, col: nat)

  // ---------------------------------------------------------------------------
  // Boards as values

  /** The rows of an array, as values. */
  ghost function Rows(a: array2<int>): (g: seq<seq<int>>)
    reads a
    ensures |g| == a.Length0
    ensures forall i :: 0 <= i < |g| ==> |g[i]| == a.Length1
    ensures forall i, j :: 0 <= i < a.Length0 && 0 <= j < a.Length1 ==> g[i][j] == a[i, j]
  {
    seq(a.Length0, i requires 0 <= i < a.Length0 reads a =>
      seq(a.Length1, j requires 0 <= j < a.Length1 reads a => a[i, j]))
  }

  /** Every row is as long as there are rows. */
  predicate Square(g: seq<seq<int>>)
  {
    forall i :: 0 <= i < |g| ==> |g[i]| == |g|
  }

  predicate InRange(x: int, N: int)
  {
    0 <= x <= N
  }

  /** A board the constructor accepts. */
  ghost predicate WellFormed(a: array2<int>)
    reads a
  {
    && a.Length0 != 0
    && a.Length0 == a.Length1
    && IsPerfectSquare(a.Length0)
    && forall i, j :: 0 <= i < a.Length0 && 0 <= j < a.Length1 ==> InRange(a[i, j], a.Length0)
  }

  /** Cell (i, j) comes before cell (i', j') in row-major order. */
  predicate Before(i: int, j: int, i': int, j': int)
  {
    i < i' || (i == i' && j < j')
  }

  /**
   * e is the error the constructor reports for a: the first of its tests, in
   * order, that a fails; for a cell, the first bad cell in row-major order.
   */
  ghost predicate FirstDefect(a: array2<int>, e: BoardError)
    reads a
  {
    match e
    case EmptyBoard => a.Length0 == 0
    case NotSquare => a.Length0 != 0 && a.Length0 != a.Length1
    case NotPerfectSquare => a.Length0 != 0 && a.Length0 == a.Length1 && !IsPerfectSquare(a.Length0)
    case CellOutOfRange(r, c) =>
      && a.Length0 != 0 && a.Length0 == a.Length1 && IsPerfectSquare(a.Length0)
      && r < a.Length0 && c < a.Length1
      && !InRange(a[r, c], a.Length0)
      && forall i, j :: 0 <= i < a.Length0 && 0 <= j < a.Length1 && Before(i, j, r, c)
           ==> InRange(a[i, j], a.Length0)
  }

  // ---------------------------------------------------------------------------
  // What a solved board is

  /** No cell is empty. */
  predicate Filled(g: seq<seq<int>>)
  {
    forall i, j :: 0 <= i < |g| && 0 <= j < |g[i]| ==> g[i][j] > 0
  }

  /** Each of 1..N occurs exactly once in s. */
  predicate EachOnce(s: seq<int>, N: int)
  {
    forall x :: 1 <= x <= N ==> multiset(s)[x] == 1
  }

  function Column(g: seq<seq<int>>, j: nat): (col: seq<int>)
    requires Square(g) && j < |g|
    ensures |col| == |g|
  {
    seq(|g|, i requires 0 <= i < |g| => g[i][j])
  }

  /** The n rows, each n cells wide, of the square window whose top-left cell is (top, left). */
  function WindowRows(g: seq<seq<int>>, top: nat, left: nat, n: nat): (rows: seq<seq<int>>)
    requires Square(g) && top + n <= |g| && left + n <= |g|
    ensures |rows| == n
    ensures forall i :: 0 <= i < n ==> rows[i] == g[top + i][left .. left + n]
  {
    seq(n, i requires 0 <= i < n => g[top + i][left .. left + n])
  }

  /** The values of that window, row by row. */
  function Window(g: seq<seq<int>>, top: nat, left: nat, n: nat): seq<int>
    requires Square(g) && top + n <= |g| && left + n <= |g|
  {
    Flatten(WindowRows(g, top, left, n))
  }

  /** Block (br, bc) of a board of side n * n sits at rows and columns br * n and bc * n onwards. */
  lemma BlockFits(n: nat, br: nat, bc: nat)
    requires br < n && bc < n
    ensures 0 <= br * n && 0 <= bc * n
    ensures br * n + n <= n * n && bc * n + n <= n * n
  {
    MulMonotone(br + 1, n, n);
    MulMonotone(bc + 1, n, n);
  }

  /** The n * n values of block (br, bc), row by row. */
  function BlockValues(g: seq<seq<int>>, n: nat, br: nat, bc: nat): seq<int>
    requires Square(g) && n * n == |g| && br < n && bc < n
  {
    BlockFits(n, br, bc);
    Window(g, br * n, bc * n, n)
  }

  predicate RowsValid(g: seq<seq<int>>)
  {
    forall i :: 0 <= i < |g| ==> EachOnce(g[i], |g|)
  }

  predicate ColumnsValid(g: seq<seq<int>>)
    requires Square(g)
  {
    forall j :: 0 <= j < |g| ==> EachOnce(Column(g, j), |g|)
  }

  predicate BlocksValid(g: seq<seq<int>>, n: nat)
    requires Square(g) && n * n == |g|
  {
    forall br, bc :: 0 <= br < n && 0 <= bc < n ==> EachOnce(BlockValues(g, n, br, bc), |g|)
  }

  /** Every block before (br, bc) in row-major order of blocks is valid. */
  predicate BlocksValidBefore(g: seq<seq<int>>, n: nat, br: nat, bc: nat)
    requires Square(g) && n * n == |g|
  {
    forall br', bc' :: 0 <= br' < n && 0 <= bc' < n && (br' < br || (br' == br && bc' < bc)) ==>
      EachOnce(BlockValues(g, n, br', bc'), |g|)
  }

  lemma NextBlock(g: seq<seq<int>>, n: nat, br: nat, bc: nat)
    requires Square(g) && n * n == |g| && br < n && bc < n
    requires BlocksValidBefore(g, n, br, bc) && EachOnce(BlockValues(g, n, br, bc), |g|)
    ensures BlocksValidBefore(g, n, br, bc + 1)
  {
  }

  lemma BlockInvalid(g: seq<seq<int>>, n: nat, br: nat, bc: nat)
    requires Square(g) && n * n == |g| && br < n && bc < n
    requires !EachOnce(BlockValues(g, n, br, bc), |g|)
    ensures !BlocksValid(g, n)
  {
  }

  lemma NextBlockRow(g: seq<seq<int>>, n: nat, br: nat)
    requires Square(g) && n * n == |g| && BlocksValidBefore(g, n, br, n)
    ensures BlocksValidBefore(g, n, br + 1, 0)
  {
  }

  lemma AllBlocksBefore(g: seq<seq<int>>, n: nat)
    requires Square(g) && n * n == |g| && BlocksValidBefore(g, n, n, 0)
    ensures BlocksValid(g, n)
  {
  }

  /**
   * A completely and correctly solved board: no empty cell, and every row,
   * column and block holds each of 1..N exactly once.
   */
  predicate SolvedGrid(g: seq<seq<int>>)
    requires Square(g) && IsPerfectSquare(|g|)
  {
    Filled(g) && RowsValid(g) && ColumnsValid(g) && BlocksValid(g, FloorSqrt(|g|))
  }

  /** The values 1..N in increasing order. */
  function OneTo(N: nat): (s: seq<int>)
    ensures |s| == N
  {
    seq(N, k => k + 1)
  }

  lemma {:induction false} OneToCount(N: nat, x: int)
    ensures multiset(OneTo(N))[x] == if 1 <= x <= N then 1 else 0
  {
    if N > 0 {
      OneToCount(N - 1, x);
      assert OneTo(N) == OneTo(N - 1) + [N];
    }
  }

  /**
   * A line of N values holds each of 1..N exactly once if and only if it is a
   * permutation of 1..N.
   */
  lemma EachOnceIsPermutation(s: seq<int>, N: nat)
    requires |s| == N
    ensures EachOnce(s, N) <==> multiset(s) == multiset(OneTo(N))
  {
    var A := multiset(OneTo(N));
    var B := multiset(s);
    forall x {
      OneToCount(N, x);
    }
    if EachOnce(s, N) {
      assert A <= B;
      assert B == A + (B - A);
      assert |B - A| == 0;
      assert B - A == multiset{};
      forall x
        ensures A[x] == B[x]
      {
        assert (B - A)[x] == 0;
      }
      assert A == B;
    }
  }

  /** How many times v occurs in s, counted left to right as a loop over s would. */
  function Occurrences(s: seq<int>, v: int): nat
  {
    if s == [] then 0
    else Occurrences(s[..|s| - 1], v) + (if s[|s| - 1] == v then 1 else 0)
  }

  lemma {:induction false} OccurrencesMultiset(s: seq<int>, v: int)
    ensures Occurrences(s, v) == multiset(s)[v]
  {
    if s != [] {
      OccurrencesMultiset(s[..|s| - 1], v);
      assert s == s[..|s| - 1] + [s[|s| - 1]];
    }
  }

  /**
   * Bumping the tally of s[p] extends a tally of s[..p], kept on top of
   * base, to one of s[..p + 1].
   */
  lemma TallyStep(base: seq<int>, before: seq<int>, seen: array<int>, s: seq<int>, p: nat)
    requires p < |s| && 1 <= s[p] <= |before| == seen.Length == |base|
    requires forall k :: 0 <= k < |before| ==> before[k] == base[k] + Occurrences(s[..p], k + 1)
    requires seen[s[p] - 1] == before[s[p] - 1] + 1
    requires forall k :: 0 <= k < |before| && k != s[p] - 1 ==> seen[k] == before[k]
    ensures forall k :: 0 <= k < seen.Length ==> seen[k] == base[k] + Occurrences(s[..p + 1], k + 1)
  {
    assert s[..p + 1][..p] == s[..p];
  }

  /** A tally of all of s, kept on top of base. */
  lemma TallyDone(base: seq<int>, seen: array<int>, s: seq<int>, n: nat)
    requires |base| == seen.Length && n == |s|
    requires forall k :: 0 <= k < |base| ==> seen[k] == base[k] + Occurrences(s[..n], k + 1)
    ensures forall k :: 0 <= k < seen.Length ==> seen[k] == base[k] + multiset(s)[k + 1]
  {
    assert s[..|s|] == s;
    forall k | 0 <= k < seen.Length
      ensures seen[k] == base[k] + multiset(s)[k + 1]
    {
      OccurrencesMultiset(s, k + 1);
    }
  }

  /** A tally of t[i] kept on top of a tally of Flatten(t[..i]) is a tally of Flatten(t[..i + 1]). */
  lemma TallyAppend(start: seq<int>, seen: array<int>, t: seq<seq<int>>, i: nat)
    requires i < |t| && |start| == seen.Length
    requires forall k :: 0 <= k < |start| ==> start[k] == multiset(Flatten(t[..i]))[k + 1]
    requires forall k :: 0 <= k < |start| ==> seen[k] == start[k] + multiset(t[i])[k + 1]
    ensures forall k :: 0 <= k < seen.Length ==> seen[k] == multiset(Flatten(t[..i + 1]))[k + 1]
  {
    FlattenPrefix(t, i);
  }

  /** When seen[k] counts the occurrences of k + 1 in s, all ones means EachOnce. */
  lemma CountsDecide(s: seq<int>, seen: array<int>)
    requires forall k :: 0 <= k < seen.Length ==> seen[k] == multiset(s)[k + 1]
    ensures (forall k :: 0 <= k < seen.Length ==> seen[k] == 1) <==> EachOnce(s, seen.Length)
  {
    if forall k :: 0 <= k < seen.Length ==> seen[k] == 1 {
      forall x | 1 <= x <= seen.Length
        ensures multiset(s)[x] == 1
      {
        assert seen[x - 1] == 1;
      }
    }
  }

  // ---------------------------------------------------------------------------
  // The board object

  class Sudoku {
    /** The grid, 0 for an empty cell; set once, by the constructor. */
    const board: array2<int>

    ghost predicate Valid()
      reads board
    {
      WellFormed(board)
    }

    /** Stores a board that has passed validation. */
    constructor (board: array2<int>)
      requires WellFormed(board)
      ensures this.board == board && Valid()
    {
      this.board := board;
    }

    /**
     * `new Sudoku(board)`: validates the board and, when it is well formed,
     * stores it unchanged; otherwise reports the exception the source throws.
     */
    static method Create(board: array2<int>) returns (r: Result<Sudoku, BoardError>)
      ensures r.Success? <==> WellFormed(board)
      ensures r.Success? ==> r.value.board == board && r.value.GetBoard() == board && r.value.Valid()
      ensures r.Failure? ==> FirstDefect(board, r.error)
    {
      var check := ValidateBoard(board);
      if check.Fail? {
        return Failure(check.error);
      }
      var s := new Sudoku(board);
      return Success(s);
    }

    /**
     * The board: the same array the constructor was given, not a copy, so a
     * caller that writes into it changes this Sudoku.  While the object is
     * valid the array passes the constructor's checks.
     */
    function GetBoard(): (b: array2<int>)
      reads board
      ensures b == board
      ensures Valid() ==> WellFormed(b)
    {
      board
    }

    /**
     * The checks of the constructor, in order: non-empty, square, perfect-square
     * size, then every cell within [0, N] in row-major order.
     */
    static method ValidateBoard(a: array2<int>) returns (check: Outcome<BoardError>)
      ensures check == Pass <==> WellFormed(a)
      ensures check.Fail? ==> FirstDefect(a, check.error)
    {
      if a.Length0 == 0 {
        return Fail(EmptyBoard);
      }
      if a.Length0 != a.Length1 {
        return Fail(NotSquare);
      }
      var size := a.Length0;
      var sqrt := FloorSqrt(size);
      if sqrt * sqrt != size {
        return Fail(NotPerfectSquare);
      }
      for i := 0 to size
        invariant forall i', j :: 0 <= i' < i && 0 <= j < size ==> InRange(a[i', j], size)
      {
        for j := 0 to size
          invariant forall i', j' :: 0 <= i' < size && 0 <= j' < size && Before(i', j', i, j)
                      ==> InRange(a[i', j'], size)
        {
          if a[i, j] < 0 || a[i, j] > size {
            return Fail(CellOutOfRange(i, j));
          }
        }
      }
      return Pass;
    }

    /**
     * Whether the board is completely and correctly solved: filled, and every
     * row, column and block holding each of 1..N exactly once.  The cells are
     * known to be filled before any of the counting loops runs.
     */
    method IsSolved() returns (solved: bool)
      requires Valid()
      ensures solved == SolvedGrid(Rows(board))
    {
      var size := board.Length0;
      var filled := AllCellsFilled();
      if !filled {
        return false;
      }
      var rowsOk := AllRowsValid(size);
      if !rowsOk {
        return false;
      }
      var columnsOk := AllColumnsValid(size);
      if !columnsOk {
        return false;
      }
      solved := AllBlocksValid(size);
    }

    /** No cell is 0 (or negative). */
    method AllCellsFilled() returns (filled: bool)
      ensures filled == Filled(Rows(board))
    {
      for i := 0 to board.Length0
        invariant forall i', j :: 0 <= i' < i && 0 <= j < board.Length1 ==> board[i', j] > 0
      {
        for j := 0 to board.Length1
          invariant forall i', j' :: 0 <= i' < i && 0 <= j' < board.Length1 ==> board[i', j'] > 0
          invariant forall j' :: 0 <= j' < j ==> board[i, j'] > 0
        {
          if board[i, j] <= 0 {
            assert Rows(board)[i][j] <= 0;
            return false;
          }
        }
      }
      return true;
    }

    /** Every row holds each of 1..size exactly once, counted in a `seen` array. */
    method AllRowsValid(size: int) returns (valid: bool)
      requires Valid() && size == board.Length0 && Filled(Rows(board))
      ensures valid == RowsValid(Rows(board))
    {
      ghost var g := Rows(board);
      for i := 0 to size
        invariant forall i' :: 0 <= i' < i ==> EachOnce(g[i'], size)
      {
        var seen := CountRow(size, i);
        var ones := AllOnes(seen);
        CountsDecide(g[i], seen);
        if !ones {
          return false;
        }
      }
      return true;
    }

    /** Tallies, for each value v in 1..size, how often v occurs in row i. */
    method CountRow(size: int, i: int) returns (seen: array<int>)
      requires Valid() && size == board.Length0 && Filled(Rows(board)) && 0 <= i < size
      ensures fresh(seen) && seen.Length == size
      ensures forall k :: 0 <= k < size ==> seen[k] == multiset(Rows(board)[i])[k + 1]
    {
      seen := new int[size](_ => 0);
      TallyRowSlice(seen, i, 0, size);
      assert Rows(board)[i][0 .. size] == Rows(board)[i];
    }

    /** Adds to seen[v - 1], for each v, how often v occurs in cells colStart .. colStart + width - 1 of row `row`. */
    method TallyRowSlice(seen: array<int>, row: int, colStart: nat, width: nat)
      requires Valid() && Filled(Rows(board)) && seen.Length == board.Length0
      requires 0 <= row < board.Length0 && colStart + width <= board.Length0
      modifies seen
      ensures forall k :: 0 <= k < seen.Length ==>
                seen[k] == old(seen[k]) + multiset(Rows(board)[row][colStart .. colStart + width])[k + 1]
    {
      ghost var start := seen[..];
      ghost var line := Rows(board)[row][colStart .. colStart + width];
      for j := 0 to width
        invariant forall k :: 0 <= k < seen.Length ==> seen[k] == start[k] + Occurrences(line[..j], k + 1)
      {
        var x := board[row, colStart + j];
        assert x == line[j] && 1 <= x <= seen.Length;
        ghost var before := seen[..];
        seen[x - 1] := seen[x - 1] + 1;
        TallyStep(start, before, seen, line, j);
      }
      TallyDone(start, seen, line, width);
    }

    /** Every column holds each of 1..size exactly once. */
    method AllColumnsValid(size: int) returns (valid: bool)
      requires Valid() && size == board.Length0 && Filled(Rows(board))
      ensures valid == ColumnsValid(Rows(board))
    {
      ghost var g := Rows(board);
      for j := 0 to size
        invariant forall j' :: 0 <= j' < j ==> EachOnce(Column(g, j'), size)
      {
        var seen := CountColumn(size, j);
        var ones := AllOnes(seen);
        CountsDecide(Column(g, j), seen);
        if !ones {
          return false;
        }
      }
      return true;
    }

    /** Tallies, for each value v in 1..size, how often v occurs in column j. */
    method CountColumn(size: int, j: int) returns (seen: array<int>)
      requires Valid() && size == board.Length0 && Filled(Rows(board)) && 0 <= j < size
      ensures fresh(seen) && seen.Length == size
      ensures forall k :: 0 <= k < size ==> seen[k] == multiset(Column(Rows(board), j))[k + 1]
    {
      ghost var g := Rows(board);
      seen := new int[size](_ => 0);
      ghost var zeros := seen[..];
      ghost var line := Column(g, j);
      for i := 0 to size
        modifies seen
        invariant forall k :: 0 <= k < size ==> seen[k] == zeros[k] + Occurrences(line[..i], k + 1)
      {
        var x := board[i, j];
        assert x == line[i] && 1 <= x <= size;
        ghost var before := seen[..];
        seen[x - 1] := seen[x - 1] + 1;
        TallyStep(zeros, before, seen, line, i);
      }
      TallyDone(zeros, seen, line, size);
      assert Rows(board) == g;
    }

    /** Every n x n block holds each of 1..size exactly once. */
    method AllBlocksValid(size: int) returns (valid: bool)
      requires Valid() && size == board.Length0 && Filled(Rows(board))
      ensures valid == BlocksValid(Rows(board), FloorSqrt(size))
    {
      ghost var g := Rows(board);
      var blockSize := FloorSqrt(size);
      for blockRow := 0 to blockSize
        invariant BlocksValidBefore(g, blockSize, blockRow, 0)
      {
        for blockCol := 0 to blockSize
          invariant BlocksValidBefore(g, blockSize, blockRow, blockCol)
        {
          BlockFits(blockSize, blockRow, blockCol);
          var seen := CountWindow(size, blockRow * blockSize, blockCol * blockSize, blockSize);
          var ones := AllOnes(seen);
          CountsDecide(BlockValues(g, blockSize, blockRow, blockCol), seen);
          if !ones {
            BlockInvalid(g, blockSize, blockRow, blockCol);
            return false;
          }
          NextBlock(g, blockSize, blockRow, blockCol);
        }
        NextBlockRow(g, blockSize, blockRow);
      }
      AllBlocksBefore(g, blockSize);
      return true;
    }

    /**
     * Tallies, for each value v in 1..size, how often v occurs in the
     * blockSize x blockSize window starting at (rowStart, colStart).
     */
    method CountWindow(size: int, rowStart: nat, colStart: nat, blockSize: nat) returns (seen: array<int>)
      requires Valid() && size == board.Length0 && Filled(Rows(board))
      requires rowStart + blockSize <= size && colStart + blockSize <= size
      ensures fresh(seen) && seen.Length == size
      ensures forall k :: 0 <= k < size ==>
                seen[k] == multiset(Window(Rows(board), rowStart, colStart, blockSize))[k + 1]
    {
      ghost var g := Rows(board);
      seen := new int[size](_ => 0);
      ghost var rows := WindowRows(g, rowStart, colStart, blockSize);
      for i := 0 to blockSize
        modifies seen
        invariant forall k :: 0 <= k < size ==> seen[k] == multiset(Flatten(rows[..i]))[k + 1]
      {
        ghost var start := seen[..];
        TallyRowSlice(seen, rowStart + i, colStart, blockSize);
        assert Rows(board) == g;
        TallyAppend(start, seen, rows, i);
      }
      assert rows[..blockSize] == rows;
    }

    /** Every entry of the array is 1. */
    static method AllOnes(counts: array<int>) returns (ones: bool)
      ensures ones <==> forall k :: 0 <= k < counts.Length ==> counts[k] == 1
    {
      for k := 0 to counts.Length
        invariant forall k' :: 0 <= k' < k ==> counts[k'] == 1
      {
        if counts[k] != 1 {
          return false;
        }
      }
      return true;
    }
  }
}
