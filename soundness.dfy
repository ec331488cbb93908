/**
 * Why the reduction is sound: any assignment that reports every variable with
 * exactly one sign and satisfies every clause buildSolver emits for a board
 * decodes, through buildSolution, to a completely and correctly solved board
 * that keeps every clue of the puzzle.
 */
module Soundness {
  import opened Arith
  import opened Seqs
  import opened Indexer
  import opened Cnf
  import opened Board
  import opened Encoder
  import opened FormulaShape
  import opened Decoder

  /** Every variable 1..N^3 is reported with exactly one sign, as in a complete SAT model. */
  predicate Decided(m: seq<int>, N: nat)
  {
    forall x :: 1 <= x <= N * N * N ==> (x in m <==> -x !in m)
  }

  // ---------------------------------------------------------------------------
  // From clauses to groups

  /** A satisfied conjunction of two clause lists satisfies each of them. */
  lemma AllHoldAppend(m: seq<int>, a: seq<Clause>, b: seq<Clause>)
    ensures AllHold(m, a + b) <==> AllHold(m, a) && AllHold(m, b)
  {
    assert forall cl :: cl in a + b <==> cl in a || cl in b;
  }

  /**
   * When the family of a table of groups holds under a decided model, group
   * (i, j) has exactly one true literal.
   */
  lemma GroupTrue(m: seq<int>, N: nat, t: seq<seq<seq<int>>>, i: nat, j: nat)
    requires Decided(m, N) && AllHold(m, FamilyClauses(Flatten(t)))
    requires i < |t| && j < |t[i]|
    requires forall k :: 0 <= k < |t[i][j]| ==> 1 <= t[i][j][k] <= N * N * N
    ensures ExactlyOneTrue(m, t[i][j])
  {
    var g := t[i][j];
    FlattenMember(t, g);
    FamilyHolds(m, Flatten(t));
    ExactlyOneSemantics(m, g);
  }

  /** The one true literal of a group, when there is one. */
  lemma TrueLiteral(m: seq<int>, g: seq<int>) returns (i: nat)
    requires ExactlyOneTrue(m, g)
    ensures i < |g| && g[i] in m
    ensures forall j :: 0 <= j < |g| && j != i ==> g[j] !in m
  {
    i :| 0 <= i < |g| && g[i] in m && forall j :: 0 <= j < |g| && j != i ==> g[j] !in m;
  }

  // ---------------------------------------------------------------------------
  // Cells

  /** Under the cell family every cell has exactly one true value variable. */
  lemma CellsHaveOneValue(m: seq<int>, N: nat, r: nat, c: nat)
    requires Decided(m, N) && AllHold(m, CellClauses(N))
    requires r < N && c < N
    ensures OneValue(N, m, r, c)
  {
    var g := CellGroup(N, r, c);
    forall k | 0 <= k < N
      ensures 1 <= g[k] <= N * N * N
    {
      VarRange(r, c, k, N);
    }
    GroupTrue(m, N, CellTable(N), r, c);
    var v := TrueLiteral(m, g);
    forall w | 0 <= w < N && w != v
      ensures Var(r, c, w, N) !in m
    {
      assert g[w] == Var(r, c, w, N);
    }
    assert g[v] == Var(r, c, v, N);
  }

  /** In a cell with exactly one true value variable, the decoded value is v + 1 exactly when v's variable is true. */
  lemma CellIff(m: seq<int>, N: nat, r: nat, c: nat, v: int)
    requires OneValue(N, m, r, c)
    requires N >= 1 && r < N && c < N && 0 <= v < N
    ensures CellValue(N, m, r, c) == v + 1 <==> Var(r, c, v, N) in m
  {
    var w :| 0 <= w < N && Var(r, c, w, N) in m &&
             forall u :: 0 <= u < N && u != w ==> Var(r, c, u, N) !in m;
    UniqueValue(N, m, r, c, w);
  }

  // ---------------------------------------------------------------------------
  // Lines and blocks

  /** x occurs once in s when it sits at position i and nowhere else. */
  lemma CountOne(s: seq<int>, x: int, i: nat)
    requires i < |s| && s[i] == x
    requires forall j :: 0 <= j < |s| && j != i ==> s[j] != x
    ensures multiset(s)[x] == 1
  {
    var a, b := s[..i], s[i + 1..];
    assert s == a + [x] + b;
    assert x !in a by {
      assert forall j :: 0 <= j < |a| ==> a[j] == s[j];
    }
    assert x !in b by {
      assert forall j :: 0 <= j < |b| ==> b[j] == s[i + 1 + j];
    }
    assert multiset(s) == multiset(a) + multiset{x} + multiset(b);
  }

  /**
   * A line s of a decoded grid, with group v listing the variables "position k
   * holds v + 1": when each group has exactly one true literal, s holds each of
   * 1..N exactly once.
   */
  lemma EachOnceOfGroups(m: seq<int>, s: seq<int>, groups: seq<seq<int>>)
    requires forall v :: 0 <= v < |groups| ==> |groups[v]| == |s|
    requires forall v, k :: 0 <= v < |groups| && 0 <= k < |s| ==> (s[k] == v + 1 <==> groups[v][k] in m)
    requires forall v :: 0 <= v < |groups| ==> ExactlyOneTrue(m, groups[v])
    ensures EachOnce(s, |groups|)
  {
    forall x | 1 <= x <= |groups|
      ensures multiset(s)[x] == 1
    {
      var i := TrueLiteral(m, groups[x - 1]);
      CountOne(s, x, i);
    }
  }

  /** Each decoded row holds 1..N once. */
  lemma RowValid(m: seq<int>, N: nat, r: nat)
    requires N >= 1 && r < N && Decided(m, N) && AllHold(m, RowClauses(N))
    requires forall r', c :: 0 <= r' < N && 0 <= c < N ==> OneValue(N, m, r', c)
    ensures EachOnce(DecodeGrid(N, m)[r], N)
  {
    var d := DecodeGrid(N, m);
    var groups := RowGroups(N, r);
    forall v | 0 <= v < N
      ensures ExactlyOneTrue(m, groups[v])
    {
      forall k | 0 <= k < N
        ensures 1 <= groups[v][k] <= N * N * N
      {
        VarRange(r, k, v, N);
      }
      GroupTrue(m, N, RowTable(N), r, v);
    }
    forall v, k | 0 <= v < N && 0 <= k < N
      ensures d[r][k] == v + 1 <==> groups[v][k] in m
    {
      CellIff(m, N, r, k, v);
    }
    EachOnceOfGroups(m, d[r], groups);
  }

  /** Each decoded column holds 1..N once. */
  lemma ColumnValid(m: seq<int>, N: nat, c: nat)
    requires N >= 1 && c < N && Decided(m, N) && AllHold(m, ColumnClauses(N))
    requires forall r, c' :: 0 <= r < N && 0 <= c' < N ==> OneValue(N, m, r, c')
    ensures EachOnce(Column(DecodeGrid(N, m), c), N)
  {
    var s := Column(DecodeGrid(N, m), c);
    var groups := ColumnGroups(N, c);
    forall v | 0 <= v < N
      ensures ExactlyOneTrue(m, groups[v])
    {
      forall k | 0 <= k < N
        ensures 1 <= groups[v][k] <= N * N * N
      {
        VarRange(k, c, v, N);
      }
      GroupTrue(m, N, ColumnTable(N), c, v);
    }
    forall v, k | 0 <= v < N && 0 <= k < N
      ensures s[k] == v + 1 <==> groups[v][k] in m
    {
      CellIff(m, N, k, c, v);
    }
    EachOnceOfGroups(m, s, groups);
  }

  /** Position idx of block (br, bc), read row by row, is cell (br * n + idx / n, bc * n + idx % n). */
  lemma BlockValueAt(g: seq<seq<int>>, n: nat, br: nat, bc: nat, idx: nat)
    requires Square(g) && n * n == |g| && br < n && bc < n && idx < n * n
    ensures 0 <= br * n + idx / n < n * n && 0 <= bc * n + idx % n < n * n
    ensures |BlockValues(g, n, br, bc)| == n * n
    ensures BlockValues(g, n, br, bc)[idx] == g[br * n + idx / n][bc * n + idx % n]
  {
    BlockFits(n, br, bc);
    BlockCoordinateBound(br, idx, n);
    BlockCoordinateBound(bc, idx, n);
    var rows := WindowRows(g, br * n, bc * n, n);
    var q, rem := idx / n, idx % n;
    assert idx == q * n + rem;
    assert forall k :: 0 <= k < n ==> |rows[k]| == n;
    FlattenAt(rows, n, q, rem);
    assert BlockValues(g, n, br, bc) == Flatten(rows);
    assert rows[q][rem] == g[br * n + q][bc * n + rem];
  }

  /** Block (br, bc) of the block table is the group list of that block. */
  lemma BlockTableAt(N: nat, n: nat, br: nat, bc: nat)
    requires n * n == N && br < n && bc < n
    ensures 0 <= br * n + bc < |Flatten(BlockTable(N, n))|
    ensures Flatten(BlockTable(N, n))[br * n + bc] == BlockGroups(N, n, br, bc)
  {
    BlockIndexBound(br, bc, n);
    FlattenAt(BlockTable(N, n), n, br, bc);
  }

  /** The variables of a block group are declared variables. */
  lemma BlockGroupWithin(N: nat, n: nat, br: nat, bc: nat, v: nat)
    requires n * n == N && br < n && bc < n && v < N
    ensures forall k :: 0 <= k < N ==> 1 <= BlockGroups(N, n, br, bc)[v][k] <= N * N * N
  {
    forall k | 0 <= k < N
      ensures 1 <= BlockGroups(N, n, br, bc)[v][k] <= N * N * N
    {
      BlockCoordinateBound(br, k, n);
      BlockCoordinateBound(bc, k, n);
      VarRange(br * n + k / n, bc * n + k % n, v, N);
    }
  }

  /** Position k of a decoded block holds v + 1 exactly when the k-th variable of its group for v is true. */
  lemma BlockCellIff(m: seq<int>, N: nat, n: nat, br: nat, bc: nat, v: nat, k: nat)
    requires N >= 1 && n * n == N && br < n && bc < n && v < N && k < N
    requires forall r, c :: 0 <= r < N && 0 <= c < N ==> OneValue(N, m, r, c)
    ensures |BlockValues(DecodeGrid(N, m), n, br, bc)| == N
    ensures BlockValues(DecodeGrid(N, m), n, br, bc)[k] == v + 1 <==> BlockGroups(N, n, br, bc)[v][k] in m
  {
    var d := DecodeGrid(N, m);
    BlockValueAt(d, n, br, bc, k);
    var r, c := br * n + k / n, bc * n + k % n;
    assert BlockGroups(N, n, br, bc)[v][k] == Var(r, c, v, N);
    CellIff(m, N, r, c, v);
  }

  /** Each decoded block holds 1..N once. */
  lemma BlockValid(m: seq<int>, N: nat, n: nat, br: nat, bc: nat)
    requires N >= 1 && n * n == N && br < n && bc < n
    requires Decided(m, N) && AllHold(m, BlockClauses(N, n))
    requires forall r, c :: 0 <= r < N && 0 <= c < N ==> OneValue(N, m, r, c)
    ensures EachOnce(BlockValues(DecodeGrid(N, m), n, br, bc), N)
  {
    var d := DecodeGrid(N, m);
    var s := BlockValues(d, n, br, bc);
    var groups := BlockGroups(N, n, br, bc);
    BlockTableAt(N, n, br, bc);
    var b: nat := br * n + bc;
    forall v | 0 <= v < N
      ensures ExactlyOneTrue(m, groups[v])
    {
      BlockGroupWithin(N, n, br, bc, v);
      GroupTrue(m, N, Flatten(BlockTable(N, n)), b, v);
    }
    BlockValueAt(d, n, br, bc, 0);
    forall v, k | 0 <= v < N && 0 <= k < N
      ensures s[k] == v + 1 <==> groups[v][k] in m
    {
      BlockCellIff(m, N, n, br, bc, v, k);
    }
    EachOnceOfGroups(m, s, groups);
  }

  // ---------------------------------------------------------------------------
  // Clues

  /** Under the clue clauses, every clue of g is decoded back unchanged. */
  lemma CluesKept(m: seq<int>, g: seq<seq<int>>, r: nat, c: nat)
    requires Square(g) && |g| >= 1 && r < |g| && c < |g|
    requires InRange(g[r][c], |g|) && g[r][c] != 0
    requires AllHold(m, ClueClauses(g)) && OneValue(|g|, m, r, c)
    ensures CellValue(|g|, m, r, c) == g[r][c]
  {
    var x := Var(r, c, g[r][c] - 1, |g|);
    ClueMember(g, [x]);
    assert ClauseHolds(m, [x]);
    CellIff(m, |g|, r, c, g[r][c] - 1);
  }

  // ---------------------------------------------------------------------------
  // The theorem

  /**
   * Soundness of the reduction: for a board the Sudoku constructor accepts, a
   * decided assignment satisfying the formula buildSolver emits decodes to a
   * solved board that agrees with every clue.
   */
  lemma SolutionOfModel(g: seq<seq<int>>, m: seq<int>)
    requires Square(g) && |g| >= 1 && IsPerfectSquare(|g|)
    requires forall r, c :: 0 <= r < |g| && 0 <= c < |g| ==> InRange(g[r][c], |g|)
    requires Decided(m, |g|) && AllHold(m, Formula(g))
    ensures SolvedGrid(DecodeGrid(|g|, m))
    ensures forall r, c :: 0 <= r < |g| && 0 <= c < |g| && g[r][c] != 0 ==> DecodeGrid(|g|, m)[r][c] == g[r][c]
  {
    var N := |g|;
    var n := FloorSqrt(N);
    var d := DecodeGrid(N, m);
    var cells, rows, columns, blocks := CellClauses(N), RowClauses(N), ColumnClauses(N), BlockClauses(N, n);
    AllHoldAppend(m, cells + rows + columns + blocks, ClueClauses(g));
    AllHoldAppend(m, cells + rows + columns, blocks);
    AllHoldAppend(m, cells + rows, columns);
    AllHoldAppend(m, cells, rows);
    forall r, c | 0 <= r < N && 0 <= c < N
      ensures OneValue(N, m, r, c)
    {
      CellsHaveOneValue(m, N, r, c);
    }
    DecodeFilled(N, m);
    forall r | 0 <= r < N
      ensures EachOnce(d[r], N)
    {
      RowValid(m, N, r);
    }
    forall c | 0 <= c < N
      ensures EachOnce(Column(d, c), N)
    {
      ColumnValid(m, N, c);
    }
    forall br, bc | 0 <= br < n && 0 <= bc < n
      ensures EachOnce(BlockValues(d, n, br, bc), N)
    {
      BlockValid(m, N, n, br, bc);
    }
    forall r, c | 0 <= r < N && 0 <= c < N && g[r][c] != 0
      ensures d[r][c] == g[r][c]
    {
      CluesKept(m, g, r, c);
    }
  }
}
