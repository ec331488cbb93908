# Sudoku as SAT, modelled in Dafny

This project models the Sudoku-to-CNF reduction of `SudokuSolver.java` and
the board class of `Sudoku.java`, and proves properties of both.

The model follows the source:

- **Variables.** Each (row r, column c, value v) of an N x N board becomes
  the variable `r*N*N + c*N + v + 1`. `Indexer` holds this numbering and its
  inverse.
- **Clause families.** `Encoder` emits five families with `buildSolver`'s
  loops, in the source's order:
  - exactly one value per cell;
  - each value exactly once per row;
  - each value exactly once per column;
  - each value exactly once per n x n block;
  - one unit clause per clue.
- **Exactly-one groups.** Each exactly-one group is the at-least-one clause
  plus one clause `[-a, -b]` per pair of literals (`Cnf`).
- **Clause sink.** The SAT solver object is replaced by `Cnf.ClauseSink`, an
  accumulator of the `newVar` and `addClause` calls. The clause sequence the
  encoder produces is therefore a value that can be inspected.
- **Decoder.** `Decoder.BuildSolution` reads the literals a model reports
  true back into a grid and hands it to the constructor.
- **Board.** `Board.Sudoku` is the board class:
  - validation, with its errors in the source's order;
  - `getBoard`;
  - `isSolved` with its counting loops.

Imperative code stays imperative:

- The encoder's loops are methods that append to the sink. Each is proved to
  append exactly the specified clause sequence.
- The `atLeastOne` buffers are arrays filled in place.
- `buildSolution` writes into an `array2`.
- The board checks count into `seen` arrays.

What is proved about the model:

- The variable numbering is a bijection onto 1..N³, and decoding inverts it.
- **Clause shapes.** Every group's clauses have exactly the expected shape.
- **Clause counts.**
  - Each structural family has N²·(1 + N(N−1)/2) clauses.
  - There are as many clue clauses as non-zero cells.
  - Every literal lies within ±[1, N³].
- **Exactly-one semantics.** Under a model that decides its variables, an
  exactly-one group holds if and only if exactly one of its literals is true.
- **Block layout.** A block's group covers exactly its n x n cells.
- **Checker.** `isSolved` is true exactly when every cell is filled and every
  row, column and block is a permutation of 1..N.
- **Soundness** (`Soundness.SolutionOfModel`). Take a decided model that
  satisfies every clause `buildSolver` emits for a valid board. It decodes to
  a solved grid that keeps every clue.
- **Completeness** (`Completeness.ModelOfSolution`). Every solved grid that
  keeps the clues has a decided model satisfying the formula, and decoding
  that model gives the grid back.
- **Correctness of the reduction** (`Completeness.ReductionCorrect`). The
  formula is satisfiable exactly when the puzzle has a solution.

Layout: `wrappers.dfy`, `arith.dfy`, `seqs.dfy` (support), `indexer.dfy`,
`cnf.dfy`, `board.dfy`, `encoder.dfy`, `formula_shape.dfy`, `decoder.dfy`,
`soundness.dfy`, `completeness.dfy`.

## Model

| member | source | states |
|---|---|---|
| Indexer.Var | SudokuSolver.java:102-104 | the numbering `r*N*N + c*N + v + 1`: for a column and value below N, the id minus one leaves remainder v and quotient r·N + c on division by N, so the decoder's digits recover the triple |
| Indexer.DecodeVar | SudokuSolver.java:81-86 | the inline remainder/division decode of a positive literal; the row is non-negative and the column and value are below N |
| Indexer.VarRange | SudokuSolver.java:102-104 | every in-range triple numbers a variable in [1, N³], within the `numVars` declared at line 39 |
| Indexer.DecodeVarRoundTrip | SudokuSolver.java:81-86 | the remainder/division decoding of `var(r, c, v) - 1` gives back v, c and r |
| Indexer.VarInjective | SudokuSolver.java:102-104 | two in-range triples share a variable if and only if they are equal |
| Indexer.VarOfDecode | SudokuSolver.java:81-86 | re-numbering a decoded positive literal gives the literal back |
| Indexer.DecodeRowInRange | SudokuSolver.java:81-89 | a positive literal decodes to a row on the board exactly when it is at most N³; column and value are always in range |
| Cnf.ClauseSink.constructor | SudokuSolver.java:32 | a fresh solver has no variables and no clauses |
| Cnf.ClauseSink.NewVar | SudokuSolver.java:40 | declares the variable count and leaves the clauses alone |
| Cnf.ClauseSink.AddClause | SudokuSolver.java:118 | appends one clause and changes nothing else |
| Cnf.AddAtMostOne | SudokuSolver.java:121-129 | the pair loops append one `[-a, -b]` clause per pair i < j of the group, in loop order |
| Cnf.AddExactlyOne | SudokuSolver.java:113-129 | the at-least-one clause, then the pair clauses, appended to the clauses already there |
| Cnf.AtMostOneShape | SudokuSolver.java:121-129 | a clause is among a group's pair clauses iff it is `[-g[a], -g[b]]` for some a < b |
| Cnf.ExactlyOneLength | SudokuSolver.java:113-129 | a group of N literals yields 1 + N(N−1)/2 clauses |
| Cnf.FamilyWithin | SudokuSolver.java:113-129 | when a group's literals are variables in [1, bound], every clause literal lies within ±[1, bound] |
| Cnf.ExactlyOneSemantics | SudokuSolver.java:113-129 | under a model that decides the group, the group's clauses hold iff exactly one of its literals is true |
| Cnf.FamilyHolds | SudokuSolver.java:110-131 | a family's clauses hold iff every group's exactly-one clauses hold |
| Encoder.CellAtLeastOne | SudokuSolver.java:114-117 | fills the buffer with the N variables of cell (r, c) |
| Encoder.AddCellLine | SudokuSolver.java:111-130 | appends the exactly-one clauses of every cell of row r, by column |
| Encoder.AddCellConstraints | SudokuSolver.java:107-132 | appends the cell family: exactly one value per cell, rows then columns |
| Encoder.RowAtLeastOne | SudokuSolver.java:142-145 | fills the buffer with the N variables "row r, some column, value v" |
| Encoder.AddRowLine | SudokuSolver.java:139-158 | appends the exactly-one clauses of every value of row r |
| Encoder.AddRowConstraints | SudokuSolver.java:135-160 | appends the row family: each value exactly once per row |
| Encoder.ColumnAtLeastOne | SudokuSolver.java:170-173 | fills the buffer with the N variables "column c, some row, value v" |
| Encoder.AddColumnLine | SudokuSolver.java:167-186 | appends the exactly-one clauses of every value of column c |
| Encoder.AddColumnConstraints | SudokuSolver.java:163-188 | appends the column family: each value exactly once per column |
| Encoder.BlockGroupAt | SudokuSolver.java:205-211 | the (dr, dc) step of the filling loop writes slot dr·n + dc, which holds the variable of cell (rowStart + dr, colStart + dc) |
| Encoder.BlockAtLeastOne | SudokuSolver.java:204-212 | the `idx++` loop fills the buffer with the block's N variables in row-major order |
| Encoder.AddBlock | SudokuSolver.java:198-234 | appends the exactly-one clauses of every value of block (br, bc) |
| Encoder.AddBlockRow | SudokuSolver.java:196-236 | appends the clauses of the blocks of block row br, by block column |
| Encoder.AddBlockConstraints | SudokuSolver.java:191-238 | appends the block family: each value exactly once per n x n block |
| Encoder.AddClueLine | SudokuSolver.java:247-256 | appends a unit clause for each non-zero cell of row r, left to right |
| Encoder.AddClueConstraints | SudokuSolver.java:241-258 | appends the clue clauses of the whole board in row-major order |
| Encoder.BuildSolver | SudokuSolver.java:31-58 | declares N³ variables and emits exactly cell, row, column, block and clue clauses, in that order |
| FormulaShape.CellPairs | SudokuSolver.java:121-129 | a cell's pair clauses are exactly `[-var(r,c,v1), -var(r,c,v2)]` for v1 < v2 |
| FormulaShape.RowPairs | SudokuSolver.java:149-157 | a row group's pair clauses are exactly `[-var(r,c1,v), -var(r,c2,v)]` for c1 < c2 |
| FormulaShape.ColumnPairs | SudokuSolver.java:177-185 | a column group's pair clauses are exactly `[-var(r1,c,v), -var(r2,c,v)]` for r1 < r2 |
| FormulaShape.BlockPairs | SudokuSolver.java:216-233 | a block group's pair clauses use the same idx → (idx / n, idx % n) layout as its at-least-one clause |
| FormulaShape.BlockCovers | SudokuSolver.java:198-211 | the group of block (br, bc) contains the variable of (r, c) iff r lies in br·n..br·n+n−1 and c in bc·n..bc·n+n−1 |
| FormulaShape.TableCount | SudokuSolver.java:110-131 | N x N groups of N literals give N²·(1 + N(N−1)/2) clauses |
| FormulaShape.CellCount | SudokuSolver.java:107-132 | the cell family has N²·(1 + N(N−1)/2) clauses |
| FormulaShape.RowCount | SudokuSolver.java:135-160 | the row family has N²·(1 + N(N−1)/2) clauses |
| FormulaShape.ColumnCount | SudokuSolver.java:163-188 | the column family has N²·(1 + N(N−1)/2) clauses |
| FormulaShape.BlockCount | SudokuSolver.java:191-238 | the block family has N²·(1 + N(N−1)/2) clauses |
| FormulaShape.ClueMember | SudokuSolver.java:246-257 | a clause is a clue clause iff it is the unit clause `[var(r, c, board[r][c] − 1)]` of a non-zero cell |
| FormulaShape.ClueCount | SudokuSolver.java:246-257 | the clue clauses and the zero cells together number N²: one clause per non-zero cell |
| FormulaShape.FormulaLength | SudokuSolver.java:46-58 | the formula has four structural families of equal size followed by the clue clauses |
| FormulaShape.StructuralWithin | SudokuSolver.java:107-188 | every literal of the cell, row and column families lies within ±[1, N³] |
| FormulaShape.BlockWithin | SudokuSolver.java:191-238 | every literal of the block family lies within ±[1, N³] |
| FormulaShape.ClueWithin | SudokuSolver.java:246-257 | every clue literal is a variable in [1, N³] when the cells are in 0..N |
| FormulaShape.FormulaWithin | SudokuSolver.java:39-58 | every literal of the whole formula names one of the N³ declared variables |
| Decoder.CellValue | SudokuSolver.java:76-91 | a cell's decoded value is always in 0..N |
| Decoder.AcceptsVar | SudokuSolver.java:81-90 | a literal is written into (r, c) iff it is the variable of (r, c) and some value v < N |
| Decoder.SkippedLiteral | SudokuSolver.java:77-80 | non-positive literals, and positive literals whose decoded row is off the board, change no cell |
| Decoder.EmptyCell | SudokuSolver.java:73-91 | a cell stays 0 iff no literal of the model is accepted for it |
| Decoder.UniqueValue | SudokuSolver.java:83-90 | when the model holds exactly one variable of cell (r, c), with value v, the cell holds v + 1 |
| Decoder.DecodeFilled | SudokuSolver.java:83-90 | a model with exactly one positive variable per cell decodes to a grid with no zero and every value in 1..N |
| Decoder.DecodedBoard | SudokuSolver.java:94-95 | the decoded grid passes the constructor's validation iff N is a perfect square |
| Decoder.BuildSolution | SudokuSolver.java:72-96 | returns the decoded grid as a valid Sudoku when N is a perfect square; otherwise the constructor's error, or division by zero for N = 0 and a positive literal |
| Soundness.GroupTrue | SudokuSolver.java:113-129 | under a decided model satisfying a family, each of its groups has exactly one true literal |
| Soundness.CellsHaveOneValue | SudokuSolver.java:107-132 | a model satisfying the cell family makes exactly one value variable of each cell true |
| Soundness.CellIff | SudokuSolver.java:83-90 | in such a cell the decoded value is v + 1 iff the variable of v is true |
| Soundness.RowValid | SudokuSolver.java:135-160 | under the row family every decoded row holds 1..N once |
| Soundness.ColumnValid | SudokuSolver.java:163-188 | under the column family every decoded column holds 1..N once |
| Soundness.BlockValueAt | Sudoku.java:161-165 | position idx of a block, read row by row, is cell (br·n + idx / n, bc·n + idx % n) |
| Soundness.BlockCellIff | SudokuSolver.java:204-211 | position k of a decoded block holds v + 1 iff the k-th variable of the block's group for v is true |
| Soundness.BlockValid | SudokuSolver.java:191-238 | under the block family every decoded block holds 1..N once |
| Soundness.CluesKept | SudokuSolver.java:246-257 | under the clue clauses every clue is decoded back unchanged |
| Soundness.SolutionOfModel | SudokuSolver.java:94-95 | a decided model satisfying the whole formula decodes to a grid that `isSolved` accepts and that keeps every clue |
| Completeness.LiteralOf | SudokuSolver.java:81-90 | the assignment of a grid reports each variable with exactly one sign |
| Completeness.ModelMember | SudokuSolver.java:83-90 | under the assignment of a grid, the variable of (r, c, v) is true iff cell (r, c) holds v + 1, and negated otherwise |
| Completeness.ModelDecided | SudokuSolver.java:39-40 | the assignment of a grid decides every one of the N³ declared variables |
| Completeness.CellRoundTrip | SudokuSolver.java:76-91 | a cell in 0..N decodes from the grid's assignment to its own value |
| Completeness.ModelRoundTrip | SudokuSolver.java:72-96 | decoding the assignment of a board with cells in 0..N gives the board back |
| Completeness.OnlyPosition | Sudoku.java:128-139 | a value counted once in a line sits at exactly one position |
| Completeness.LineInRange | Sudoku.java:128-139 | every value of a line holding each of 1..N once is in 1..N |
| Completeness.GroupsOfEachOnce | SudokuSolver.java:113-129 | a line holding 1..N once makes each of its value groups have exactly one true literal |
| Completeness.CellGroupTrue | SudokuSolver.java:110-131 | a cell holding a value in 1..N satisfies its cell group |
| Completeness.RowGroupsTrue | SudokuSolver.java:138-159 | a valid row satisfies all its row groups |
| Completeness.ColumnGroupsTrue | SudokuSolver.java:166-187 | a valid column satisfies all its column groups |
| Completeness.BlockGroupsTrue | SudokuSolver.java:198-234 | a valid block satisfies all its block groups |
| Completeness.BlockFamilyMember | SudokuSolver.java:195-237 | every group of the block family is the group of some value of some block |
| Completeness.CellFamilyHolds | SudokuSolver.java:107-132 | the assignment of a grid with valid rows satisfies the cell family |
| Completeness.RowFamilyHolds | SudokuSolver.java:135-160 | the assignment of a grid with valid rows satisfies the row family |
| Completeness.ColumnFamilyHolds | SudokuSolver.java:163-188 | the assignment of a grid with valid columns satisfies the column family |
| Completeness.BlockFamilyHolds | SudokuSolver.java:191-238 | the assignment of a grid with valid blocks satisfies the block family |
| Completeness.ClueFamilyHolds | SudokuSolver.java:241-258 | the assignment of a grid that keeps every clue satisfies the clue clauses |
| Completeness.ModelOfSolution | SudokuSolver.java:31-58 | a solved grid that keeps every clue gives a decided assignment satisfying the whole formula, which decodes back to the grid |
| Completeness.ReductionCorrect | SudokuSolver.java:31-96 | the formula of a valid board is satisfiable by a decided assignment iff the puzzle has a solution |
| Arith.FloorSqrt | Sudoku.java:44 | the integer square root: r·r ≤ x < (r+1)·(r+1) |
| Arith.PerfectSquareIff | Sudoku.java:43-48 | the source's `sqrt * sqrt != size` test rejects exactly the sizes that are not k·k |
| Arith.FloorSqrtOfSquare | SudokuSolver.java:36 | for N = n·n the block size computed is n |
| Board.Sudoku.constructor | Sudoku.java:26-29 | stores the board unchanged |
| Board.Sudoku.GetBoard | Sudoku.java:65-67 | returns the stored array itself, not a copy, so the alias is kept; while the object is valid that array passes the constructor's checks |
| Board.Sudoku.Create | Sudoku.java:26-29 | succeeds iff the board is well formed; then it holds the same array and `getBoard` (Sudoku.java:65-67) returns it; otherwise it reports the first failing check |
| Board.Sudoku.ValidateBoard | Sudoku.java:34-58 | passes iff the board is non-empty, square, of perfect-square size and every cell is in 0..N; a failure names the first test failed, the first bad cell in row-major order |
| Board.Sudoku.IsSolved | Sudoku.java:99-115 | true iff every cell is filled and every row, column and block holds each of 1..N exactly once |
| Board.Sudoku.AllCellsFilled | Sudoku.java:117-126 | true iff no cell is ≤ 0 |
| Board.Sudoku.AllRowsValid | Sudoku.java:128-139 | on a filled board, true iff every row holds each of 1..N exactly once |
| Board.Sudoku.CountRow | Sudoku.java:130-133 | `seen[k]` is the number of occurrences of k + 1 in row i |
| Board.Sudoku.TallyRowSlice | Sudoku.java:161-166 | adds to `seen` the occurrences of each value in a slice of a row |
| Board.Sudoku.AllColumnsValid | Sudoku.java:141-152 | on a filled board, true iff every column holds each of 1..N exactly once |
| Board.Sudoku.CountColumn | Sudoku.java:143-146 | `seen[k]` is the number of occurrences of k + 1 in column j |
| Board.Sudoku.AllBlocksValid | Sudoku.java:154-175 | on a filled board, true iff every n x n block holds each of 1..N exactly once |
| Board.Sudoku.CountWindow | Sudoku.java:159-167 | `seen[k]` is the number of occurrences of k + 1 in the block |
| Board.Sudoku.AllOnes | Sudoku.java:177-184 | true iff every entry of the array equals 1 |
| Board.EachOnceIsPermutation | Sudoku.java:128-175 | a line holds each of 1..N exactly once iff it is a permutation of 1..N |
| Board.CountsDecide | Sudoku.java:132-136 | counts all equal to 1 iff each of 1..N occurs once |
| Board.BlockInvalid | Sudoku.java:169-171 | one bad block makes the board's blocks invalid, so the early return is correct |

## Left out

- The SAT search itself is not part of this model:
  - the solver factory, `setTimeout`, `setExpectedNumberOfClauses`, `isSatisfiable` and `model`;
  - `solveSudoku` around them.

  `Cnf.ClauseSink` only records the variable count and the clauses. A SAT
  model enters `Decoder.BuildSolution` as a parameter.
- `TimeoutException` and `ContradictionException` are left out, along with
  their conversion to `RuntimeException`. When the library raises a
  contradiction depends on its internal unit propagation.
- `Math.sqrt` is modelled by `Arith.FloorSqrt`, the exact integer square
  root. Floating-point rounding is not modelled.
- Java `int` overflow is not modelled; all integers are unbounded. For
  example, `r*N*N` in `var` and `N*N*N` in `buildSolver` overflow for large N.
- The board is a rectangular `array2<int>`, so ragged rows are not modelled.
  In Java a row shorter than the first would fault during validation.
- `Sudoku.toString`, `SudokuApp.java`, `Client.java` and `StarterSat4j.java`
  are left out. They are output formatting, file I/O and a library demo.
- Cnf.AddAtMostOne: one pair loop serves all four families. It reads the
  two literals from the group's sequence instead of recomputing `var(...)`
  inside the loop. `FormulaShape.CellPairs`, `RowPairs`, `ColumnPairs` and
  `BlockPairs` prove that the clauses are the ones the source writes.
- Encoder.AddCellConstraints: each loop level of the nested loops is a
  separate method. The same holds for the row, column, block and clue
  families. The clauses and their order are unchanged.
- Decoder.BuildSolution: takes the board size as a `nat`, so a negative
  size, which throws in Java when the array is allocated, is not modelled.
  The model is a sequence of literals, not a Java array.
- Board.Sudoku.constructor: requires a well-formed board. The throwing
  constructor of the source is `Board.Sudoku.Create`, which returns the
  first validation error instead of throwing.
- Board.Sudoku.IsSolved: requires a valid object. In Java the array returned
  by `getBoard` can be changed after construction. A cell above N then makes
  `isSolved` throw `ArrayIndexOutOfBoundsException` at
  `seen[board[i][j] - 1]` (Sudoku.java:132). That path is not modelled. No
  caller in the source writes into the board after construction.
