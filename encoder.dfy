/**
 * The constraint encoder of SudokuSolver.java: buildSolver declares N^3
 * variables and emits five clause families, in this order: one value per cell,
 * each value once per row, once per column, once per n x n block, and one unit
 * clause per clue.  Each of the first four is an exactly-one group per
 * (cell), (row, value), (column, value) and (block, value); the groups of a
 * family are visited in the source's loop order, so a family's clause
 * sequence is FamilyClauses of its groups, flattened row-major.
 */
module Encoder {
  import opened Arith
  import opened Seqs
  import opened Indexer
  import opened Cnf
  import opened Board

  // ---------------------------------------------------------------------------
  // The groups of the four structural families

  /** The N values of cell (r, c). */
  function CellGroup(N: nat, r: int, c: int): seq<int>
  {
    seq(N, v => Var(r, c, v, N))
  }

  /** The N columns of row r that could hold value v + 1. */
  function RowGroup(N: nat, r: int, v: int): seq<int>
  {
    seq(N, c => Var(r, c, v, N))
  }

  /** The N rows of column c that could hold value v + 1. */
  function ColumnGroup(N: nat, c: int, v: int): seq<int>
  {
    seq(N, r => Var(r, c, v, N))
  }

  /**
   * The N = n * n cells of the block whose top-left cell is (rowStart, colStart)
   * that could hold value v + 1; position idx is cell (idx / n, idx % n) of the block.
   */
  function BlockGroup(N: nat, n: nat, rowStart: int, colStart: int, v: int): seq<int>
    requires n * n == N
  {
    seq(N, idx requires 0 <= idx < N => BlockVar(N, n, rowStart, colStart, v, idx))
  }

  /** The variable of value v at position idx of the block at (rowStart, colStart). */
  function BlockVar(N: nat, n: nat, rowStart: int, colStart: int, v: int, idx: int): int
    requires n > 0
  {
    Var(rowStart + idx / n, colStart + idx % n, v, N)
  }

  /** The groups of row r of the cell family, by column c. */
  function CellGroups(N: nat, r: int): seq<seq<int>>
  {
    seq(N, c => CellGroup(N, r, c))
  }

  /** The groups of row r of the row family, by value v. */
  function RowGroups(N: nat, r: int): seq<seq<int>>
  {
    seq(N, v => RowGroup(N, r, v))
  }

  /** The groups of column c of the column family, by value v. */
  function ColumnGroups(N: nat, c: int): seq<seq<int>>
  {
    seq(N, v => ColumnGroup(N, c, v))
  }

  /** The groups of the block at block row br and block column bc, by value v. */
  function BlockGroups(N: nat, n: nat, br: int, bc: int): seq<seq<int>>
    requires n * n == N
  {
    seq(N, v => BlockGroup(N, n, br * n, bc * n, v))
  }

  /** The blocks of block row br, by block column bc. */
  function BlockRowGroups(N: nat, n: nat, br: int): seq<seq<seq<int>>>
    requires n * n == N
  {
    seq(n, bc => BlockGroups(N, n, br, bc))
  }

  /** The cell groups, by row r and then column c. */
  function CellTable(N: nat): seq<seq<seq<int>>>
  {
    seq(N, r => CellGroups(N, r))
  }

  /** The row groups, by row r and then value v. */
  function RowTable(N: nat): seq<seq<seq<int>>>
  {
    seq(N, r => RowGroups(N, r))
  }

  /** The column groups, by column c and then value v. */
  function ColumnTable(N: nat): seq<seq<seq<int>>>
  {
    seq(N, c => ColumnGroups(N, c))
  }

  /** The block groups, by block row br, block column bc and then value v. */
  function BlockTable(N: nat, n: nat): seq<seq<seq<seq<int>>>>
    requires n * n == N
  {
    seq(n, br => BlockRowGroups(N, n, br))
  }

  function CellClauses(N: nat): seq<Clause>
  {
    FamilyClauses(Flatten(CellTable(N)))
  }

  function RowClauses(N: nat): seq<Clause>
  {
    FamilyClauses(Flatten(RowTable(N)))
  }

  function ColumnClauses(N: nat): seq<Clause>
  {
    FamilyClauses(Flatten(ColumnTable(N)))
  }

  function BlockClauses(N: nat, n: nat): seq<Clause>
    requires n * n == N
  {
    FamilyClauses(Flatten(Flatten(BlockTable(N, n))))
  }

  // ---------------------------------------------------------------------------
  // The clue family

  /** The unit clause of cell (r, c) when it holds a clue, nothing when it is empty. */
  function ClueOf(g: seq<seq<int>>, r: nat, c: nat): seq<Clause>
    requires Square(g) && r < |g| && c < |g|
  {
    if g[r][c] != 0 then [[Var(r, c, g[r][c] - 1, |g|)]] else []
  }

  /** The clue clauses of row r, column by column. */
  function ClueRow(g: seq<seq<int>>, r: nat): seq<seq<Clause>>
    requires Square(g) && r < |g|
  {
    seq(|g|, c requires 0 <= c < |g| => ClueOf(g, r, c))
  }

  function ClueTable(g: seq<seq<int>>): seq<seq<seq<Clause>>>
    requires Square(g)
  {
    seq(|g|, r requires 0 <= r < |g| => ClueRow(g, r))
  }

  function ClueClauses(g: seq<seq<int>>): seq<Clause>
    requires Square(g)
  {
    Flatten(Flatten(ClueTable(g)))
  }

  /** The whole formula of a well-formed board, in the order buildSolver emits it. */
  function Formula(g: seq<seq<int>>): seq<Clause>
    requires Square(g) && IsPerfectSquare(|g|)
  {
    var N := |g|;
    CellClauses(N) + RowClauses(N) + ColumnClauses(N) + BlockClauses(N, FloorSqrt(N)) + ClueClauses(g)
  }

  // ---------------------------------------------------------------------------
  // The emitting methods

  /** The at-least-one list of cell (r, c): its N value variables. */
  method CellAtLeastOne(boardSize: nat, r: int, c: int) returns (atLeastOne: array<int>)
    ensures fresh(atLeastOne)
    ensures atLeastOne[..] == CellGroup(boardSize, r, c)
  {
    atLeastOne := new int[boardSize];
    for v := 0 to boardSize
      invariant forall k :: 0 <= k < v ==> atLeastOne[k] == Var(r, c, k, boardSize)
    {
      atLeastOne[v] := Var(r, c, v, boardSize);
    }
  }

  /** The cell groups of row r, column by column. */
  method AddCellLine(sink: ClauseSink, boardSize: nat, r: int)
    modifies sink`clauses
    ensures sink.clauses == old(sink.clauses) + FamilyClauses(CellGroups(boardSize, r))
  {
    ghost var groups := CellGroups(boardSize, r);
    for c := 0 to boardSize
      invariant sink.clauses == old(sink.clauses) + FamilyClauses(groups[..c])
    {
      var atLeastOne := CellAtLeastOne(boardSize, r, c);
      ghost var done := FamilyClauses(groups[..c]);
      AddExactlyOne(sink, atLeastOne[..]);
      FamilyPrefix(groups, c);
      AppendAssoc(old(sink.clauses), done, ExactlyOneClauses(groups[c]));
    }
    assert groups[..boardSize] == groups;
  }

  /** 1. Each cell has exactly one value. */
  method AddCellConstraints(sink: ClauseSink, boardSize: nat)
    modifies sink`clauses
    ensures sink.clauses == old(sink.clauses) + CellClauses(boardSize)
  {
    ghost var t := CellTable(boardSize);
    for r := 0 to boardSize
      invariant sink.clauses == old(sink.clauses) + FamilyClauses(Flatten(t[..r]))
    {
      ghost var done := FamilyClauses(Flatten(t[..r]));
      AddCellLine(sink, boardSize, r);
      FamilyRows(t, r);
      AppendAssoc(old(sink.clauses), done, FamilyClauses(t[r]));
    }
    assert t[..boardSize] == t;
  }

  /** The at-least-one list of value v in row r: its N column variables. */
  method RowAtLeastOne(boardSize: nat, r: int, v: int) returns (atLeastOne: array<int>)
    ensures fresh(atLeastOne)
    ensures atLeastOne[..] == RowGroup(boardSize, r, v)
  {
    atLeastOne := new int[boardSize];
    for c := 0 to boardSize
      invariant forall k :: 0 <= k < c ==> atLeastOne[k] == Var(r, k, v, boardSize)
    {
      atLeastOne[c] := Var(r, c, v, boardSize);
    }
  }

  /** The row groups of row r, value by value. */
  method AddRowLine(sink: ClauseSink, boardSize: nat, r: int)
    modifies sink`clauses
    ensures sink.clauses == old(sink.clauses) + FamilyClauses(RowGroups(boardSize, r))
  {
    ghost var groups := RowGroups(boardSize, r);
    for v := 0 to boardSize
      invariant sink.clauses == old(sink.clauses) + FamilyClauses(groups[..v])
    {
      var atLeastOne := RowAtLeastOne(boardSize, r, v);
      ghost var done := FamilyClauses(groups[..v]);
      AddExactlyOne(sink, atLeastOne[..]);
      FamilyPrefix(groups, v);
      AppendAssoc(old(sink.clauses), done, ExactlyOneClauses(groups[v]));
    }
    assert groups[..boardSize] == groups;
  }

  /** 2. Each value appears exactly once per row. */
  method AddRowConstraints(sink: ClauseSink, boardSize: nat)
    modifies sink`clauses
    ensures sink.clauses == old(sink.clauses) + RowClauses(boardSize)
  {
    ghost var t := RowTable(boardSize);
    for r := 0 to boardSize
      invariant sink.clauses == old(sink.clauses) + FamilyClauses(Flatten(t[..r]))
    {
      ghost var done := FamilyClauses(Flatten(t[..r]));
      AddRowLine(sink, boardSize, r);
      FamilyRows(t, r);
      AppendAssoc(old(sink.clauses), done, FamilyClauses(t[r]));
    }
    assert t[..boardSize] == t;
  }

  /** The at-least-one list of value v in column c: its N row variables. */
  method ColumnAtLeastOne(boardSize: nat, c: int, v: int) returns (atLeastOne: array<int>)
    ensures fresh(atLeastOne)
    ensures atLeastOne[..] == ColumnGroup(boardSize, c, v)
  {
    atLeastOne := new int[boardSize];
    for r := 0 to boardSize
      invariant forall k :: 0 <= k < r ==> atLeastOne[k] == Var(k, c, v, boardSize)
    {
      atLeastOne[r] := Var(r, c, v, boardSize);
    }
  }

  /** The column groups of column c, value by value. */
  method AddColumnLine(sink: ClauseSink, boardSize: nat, c: int)
    modifies sink`clauses
    ensures sink.clauses == old(sink.clauses) + FamilyClauses(ColumnGroups(boardSize, c))
  {
    ghost var groups := ColumnGroups(boardSize, c);
    for v := 0 to boardSize
      invariant sink.clauses == old(sink.clauses) + FamilyClauses(groups[..v])
    {
      var atLeastOne := ColumnAtLeastOne(boardSize, c, v);
      ghost var done := FamilyClauses(groups[..v]);
      AddExactlyOne(sink, atLeastOne[..]);
      FamilyPrefix(groups, v);
      AppendAssoc(old(sink.clauses), done, ExactlyOneClauses(groups[v]));
    }
    assert groups[..boardSize] == groups;
  }

  /** 3. Each value appears exactly once per column. */
  method AddColumnConstraints(sink: ClauseSink, boardSize: nat)
    modifies sink`clauses
    ensures sink.clauses == old(sink.clauses) + ColumnClauses(boardSize)
  {
    ghost var t := ColumnTable(boardSize);
    for c := 0 to boardSize
      invariant sink.clauses == old(sink.clauses) + FamilyClauses(Flatten(t[..c]))
    {
      ghost var done := FamilyClauses(Flatten(t[..c]));
      AddColumnLine(sink, boardSize, c);
      FamilyRows(t, c);
      AppendAssoc(old(sink.clauses), done, FamilyClauses(t[c]));
    }
    assert t[..boardSize] == t;
  }

  /** Position dr * n + dc of a block group is cell (rowStart + dr, colStart + dc). */
  lemma BlockGroupAt(N: nat, n: nat, rowStart: int, colStart: int, v: int, dr: int, dc: int)
    requires n * n == N && 0 <= dr < n && 0 <= dc < n
    ensures 0 <= dr * n + dc < N
    ensures BlockGroup(N, n, rowStart, colStart, v)[dr * n + dc] == Var(rowStart + dr, colStart + dc, v, N)
  {
    BlockIndexBound(dr, dc, n);
    DivModUnique(dr, dc, n);
  }

  /**
   * The at-least-one list of value v in the block at (rowStart, colStart),
   * filled row by row of the block with a running index idx.
   */
  method BlockAtLeastOne(boardSize: nat, n: nat, rowStart: int, colStart: int, v: int)
    returns (atLeastOne: array<int>)
    requires n * n == boardSize
    ensures fresh(atLeastOne)
    ensures atLeastOne[..] == BlockGroup(boardSize, n, rowStart, colStart, v)
  {
    ghost var group := BlockGroup(boardSize, n, rowStart, colStart, v);
    atLeastOne := new int[boardSize];
    var idx := 0;
    for dr := 0 to n
      invariant idx == dr * n && idx <= boardSize
      invariant forall k :: 0 <= k < idx ==> atLeastOne[k] == group[k]
    {
      for dc := 0 to n
        invariant idx == dr * n + dc && idx <= boardSize
        invariant forall k :: 0 <= k < idx ==> atLeastOne[k] == group[k]
      {
        var r := rowStart + dr;
        var c := colStart + dc;
        BlockGroupAt(boardSize, n, rowStart, colStart, v, dr, dc);
        atLeastOne[idx] := Var(r, c, v, boardSize);
        idx := idx + 1;
      }
      BlockIndexBound(dr, n - 1, n);
      assert dr * n + n == (dr + 1) * n;
    }
  }

  /** The n * n groups of the block at block row br and block column bc, value by value. */
  method AddBlock(sink: ClauseSink, boardSize: nat, n: nat, br: int, bc: int)
    requires n * n == boardSize
    modifies sink`clauses
    ensures sink.clauses == old(sink.clauses) + FamilyClauses(BlockGroups(boardSize, n, br, bc))
  {
    var rowStart := br * n;
    var colStart := bc * n;
    ghost var groups := BlockGroups(boardSize, n, br, bc);
    for v := 0 to boardSize
      invariant sink.clauses == old(sink.clauses) + FamilyClauses(groups[..v])
    {
      var atLeastOne := BlockAtLeastOne(boardSize, n, rowStart, colStart, v);
      ghost var done := FamilyClauses(groups[..v]);
      AddExactlyOne(sink, atLeastOne[..]);
      FamilyPrefix(groups, v);
      AppendAssoc(old(sink.clauses), done, ExactlyOneClauses(groups[v]));
    }
    assert groups[..boardSize] == groups;
  }

  /** The blocks of block row br, block column by block column. */
  method AddBlockRow(sink: ClauseSink, boardSize: nat, n: nat, br: int)
    requires n * n == boardSize
    modifies sink`clauses
    ensures sink.clauses == old(sink.clauses) + FamilyClauses(Flatten(BlockRowGroups(boardSize, n, br)))
  {
    ghost var blocks := BlockRowGroups(boardSize, n, br);
    for bc := 0 to n
      invariant sink.clauses == old(sink.clauses) + FamilyClauses(Flatten(blocks[..bc]))
    {
      ghost var done := FamilyClauses(Flatten(blocks[..bc]));
      AddBlock(sink, boardSize, n, br, bc);
      FamilyRows(blocks, bc);
      AppendAssoc(old(sink.clauses), done, FamilyClauses(blocks[bc]));
    }
    assert blocks[..n] == blocks;
  }

  /** 4. Each value appears exactly once per n x n block. */
  method AddBlockConstraints(sink: ClauseSink, boardSize: nat, n: nat)
    requires n * n == boardSize
    modifies sink`clauses
    ensures sink.clauses == old(sink.clauses) + BlockClauses(boardSize, n)
  {
    ghost var t := BlockTable(boardSize, n);
    for br := 0 to n
      invariant sink.clauses == old(sink.clauses) + FamilyClauses(Flatten(Flatten(t[..br])))
    {
      ghost var done := FamilyClauses(Flatten(Flatten(t[..br])));
      AddBlockRow(sink, boardSize, n, br);
      FamilyRowsTwice(t, br);
      AppendAssoc(old(sink.clauses), done, FamilyClauses(Flatten(t[br])));
    }
    assert t[..n] == t;
  }

  /** The unit clauses of the clues in row r, column by column. */
  method AddClueLine(sink: ClauseSink, board: array2<int>, r: nat)
    requires board.Length0 == board.Length1 && r < board.Length0
    modifies sink`clauses
    ensures sink.clauses == old(sink.clauses) + Flatten(ClueRow(Rows(board), r))
  {
    ghost var clues := ClueRow(Rows(board), r);
    var boardSize := board.Length0;
    for c := 0 to boardSize
      invariant sink.clauses == old(sink.clauses) + Flatten(clues[..c])
    {
      ghost var done := Flatten(clues[..c]);
      var value := board[r, c];
      if value != 0 {
        var v := value - 1;
        var lit := Var(r, c, v, boardSize);
        sink.AddClause([lit]);
      }
      FlattenPrefix(clues, c);
      AppendAssoc(old(sink.clauses), done, clues[c]);
    }
    assert clues[..boardSize] == clues;
  }

  /** 5. One unit clause per pre-filled cell, in row-major order. */
  method AddClueConstraints(sink: ClauseSink, board: array2<int>)
    requires board.Length0 == board.Length1
    modifies sink`clauses
    ensures sink.clauses == old(sink.clauses) + ClueClauses(Rows(board))
  {
    ghost var t := ClueTable(Rows(board));
    var boardSize := board.Length0;
    for r := 0 to boardSize
      invariant sink.clauses == old(sink.clauses) + Flatten(Flatten(t[..r]))
    {
      ghost var done := Flatten(Flatten(t[..r]));
      AddClueLine(sink, board, r);
      FlattenTwicePrefix(t, r);
      AppendAssoc(old(sink.clauses), done, Flatten(t[r]));
    }
    assert t[..boardSize] == t;
  }

  /**
   * buildSolver without the SAT search: a fresh solver with N^3 variables
   * and the five families added in order.
   */
  method BuildSolver(sudo: Sudoku) returns (sink: ClauseSink)
    requires sudo.Valid()
    ensures fresh(sink)
    ensures sink.numVars == sudo.board.Length0 * sudo.board.Length0 * sudo.board.Length0
    ensures sink.clauses == Formula(Rows(sudo.board))
  {
    sink := new ClauseSink();
    var board := sudo.GetBoard();
    var boardSize := board.Length0;
    var n := FloorSqrt(boardSize);
    var numVars := boardSize * boardSize * boardSize;
    sink.NewVar(numVars);
    AddCellConstraints(sink, boardSize);
    assert [] + CellClauses(boardSize) == CellClauses(boardSize);
    AddRowConstraints(sink, boardSize);
    AddColumnConstraints(sink, boardSize);
    AddBlockConstraints(sink, boardSize, n);
    ghost var structural := sink.clauses;
    AddClueConstraints(sink, board);
    assert sink.clauses == structural + ClueClauses(Rows(sudo.board));
  }
}
