/**
 * What the encoder's formula looks like: the clauses of each group in the
 * source's own terms, how many clauses each family has, which cells a block
 * group covers, the clue clauses, and the range of every literal.
 */
module FormulaShape {
  import opened Arith
  import opened Seqs
  import opened Indexer
  import opened Cnf
  import opened Board
  import opened Encoder

  // ---------------------------------------------------------------------------
  // The pair clauses of each family, as the source writes them

  /** Cell (r, c): one clause [-var(r, c, v1), -var(r, c, v2)] per pair of values v1 < v2. */
  lemma CellPairs(N: nat, r: int, c: int, cl: Clause)
    ensures cl in AtMostOneClauses(CellGroup(N, r, c)) <==>
            exists v1, v2 :: 0 <= v1 < v2 < N && cl == [-Var(r, c, v1, N), -Var(r, c, v2, N)]
  {
    var g := CellGroup(N, r, c);
    AtMostOneShape(g, cl);
    if exists v1, v2 :: 0 <= v1 < v2 < N && cl == [-Var(r, c, v1, N), -Var(r, c, v2, N)] {
      var v1, v2 :| 0 <= v1 < v2 < N && cl == [-Var(r, c, v1, N), -Var(r, c, v2, N)];
      assert cl == NotBoth(g, v1, v2);
    }
  }

  /** Row r and value v: one clause [-var(r, c1, v), -var(r, c2, v)] per pair of columns c1 < c2. */
  lemma RowPairs(N: nat, r: int, v: int, cl: Clause)
    ensures cl in AtMostOneClauses(RowGroup(N, r, v)) <==>
            exists c1, c2 :: 0 <= c1 < c2 < N && cl == [-Var(r, c1, v, N), -Var(r, c2, v, N)]
  {
    var g := RowGroup(N, r, v);
    AtMostOneShape(g, cl);
    if exists c1, c2 :: 0 <= c1 < c2 < N && cl == [-Var(r, c1, v, N), -Var(r, c2, v, N)] {
      var c1, c2 :| 0 <= c1 < c2 < N && cl == [-Var(r, c1, v, N), -Var(r, c2, v, N)];
      assert cl == NotBoth(g, c1, c2);
    }
  }

  /** Column c and value v: one clause [-var(r1, c, v), -var(r2, c, v)] per pair of rows r1 < r2. */
  lemma ColumnPairs(N: nat, c: int, v: int, cl: Clause)
    ensures cl in AtMostOneClauses(ColumnGroup(N, c, v)) <==>
            exists r1, r2 :: 0 <= r1 < r2 < N && cl == [-Var(r1, c, v, N), -Var(r2, c, v, N)]
  {
    var g := ColumnGroup(N, c, v);
    AtMostOneShape(g, cl);
    if exists r1, r2 :: 0 <= r1 < r2 < N && cl == [-Var(r1, c, v, N), -Var(r2, c, v, N)] {
      var r1, r2 :| 0 <= r1 < r2 < N && cl == [-Var(r1, c, v, N), -Var(r2, c, v, N)];
      assert cl == NotBoth(g, r1, r2);
    }
  }

  /**
   * The block at (rowStart, colStart) and value v: one clause per pair of
   * positions i < j, each position idx standing for cell
   * (rowStart + idx / n, colStart + idx % n), the same layout as the
   * at-least-one list.
   */
  lemma BlockPairs(N: nat, n: nat, rowStart: int, colStart: int, v: int, cl: Clause)
    requires n * n == N
    ensures cl in AtMostOneClauses(BlockGroup(N, n, rowStart, colStart, v)) <==>
            exists i, j :: 0 <= i < j < N &&
              cl == [-BlockVar(N, n, rowStart, colStart, v, i), -BlockVar(N, n, rowStart, colStart, v, j)]
  {
    var g := BlockGroup(N, n, rowStart, colStart, v);
    AtMostOneShape(g, cl);
    if exists i, j :: 0 <= i < j < N &&
         cl == [-BlockVar(N, n, rowStart, colStart, v, i), -BlockVar(N, n, rowStart, colStart, v, j)] {
      var i, j :| 0 <= i < j < N &&
        cl == [-BlockVar(N, n, rowStart, colStart, v, i), -BlockVar(N, n, rowStart, colStart, v, j)];
      assert cl == NotBoth(g, i, j);
    }
  }

  /**
   * The group of block (br, bc) and value v lists exactly the variables of v
   * in the cells of rows br * n .. br * n + n - 1 and columns bc * n .. bc * n + n - 1.
   */
  lemma BlockCovers(N: nat, n: nat, br: nat, bc: nat, v: nat, r: nat, c: nat)
    requires n * n == N && br < n && bc < n && r < N && c < N && v < N
    ensures Var(r, c, v, N) in BlockGroup(N, n, br * n, bc * n, v) <==>
            br * n <= r < br * n + n && bc * n <= c < bc * n + n
  {
    var g := BlockGroup(N, n, br * n, bc * n, v);
    if Var(r, c, v, N) in g {
      var idx :| 0 <= idx < N && g[idx] == Var(r, c, v, N);
      BlockCoordinateBound(br, idx, n);
      BlockCoordinateBound(bc, idx, n);
      VarInjective(br * n + idx / n, bc * n + idx % n, v, r, c, v, N);
    }
    if br * n <= r < br * n + n && bc * n <= c < bc * n + n {
      BlockGroupAt(N, n, br * n, bc * n, v, r - br * n, c - bc * n);
      assert g[(r - br * n) * n + (c - bc * n)] == Var(r, c, v, N);
    }
  }

  // ---------------------------------------------------------------------------
  // Clause counts

  /** The clauses of one structural family: N^2 groups of 1 + N(N-1)/2 clauses. */
  function FamilySize(N: nat): nat
  {
    N * N * (1 + N * (N - 1) / 2)
  }

  /** N x N groups of N literals give N^2 (1 + N(N-1)/2) clauses. */
  lemma TableCount(t: seq<seq<seq<int>>>, N: nat)
    requires |t| == N
    requires forall i :: 0 <= i < N ==> |t[i]| == N
    requires forall i, j :: 0 <= i < N && 0 <= j < |t[i]| ==> |t[i][j]| == N
    ensures |FamilyClauses(Flatten(t))| == FamilySize(N)
  {
    var gs := Flatten(t);
    FlattenLength(t, N);
    FlattenUniform(t, N);
    assert forall k :: 0 <= k < |gs| ==> gs[k] in gs;
    FamilyLength(gs, N);
  }

  /** The cell family: N^2 groups of N values. */
  lemma CellCount(N: nat)
    ensures |CellClauses(N)| == FamilySize(N)
  {
    TableCount(CellTable(N), N);
  }

  /** The row family: N^2 groups of N columns. */
  lemma RowCount(N: nat)
    ensures |RowClauses(N)| == FamilySize(N)
  {
    TableCount(RowTable(N), N);
  }

  /** The column family: N^2 groups of N rows. */
  lemma ColumnCount(N: nat)
    ensures |ColumnClauses(N)| == FamilySize(N)
  {
    TableCount(ColumnTable(N), N);
  }

  /** The block family: n^2 = N blocks times N values, each group n * n = N cells. */
  lemma BlockCount(N: nat, n: nat)
    requires n * n == N
    ensures |BlockClauses(N, n)| == FamilySize(N)
  {
    var bt := BlockTable(N, n);
    var t := Flatten(bt);
    FlattenLength(bt, n);
    FlattenUniform(bt, N);
    forall i, j | 0 <= i < N && 0 <= j < |t[i]|
      ensures |t[i][j]| == N
    {
      assert t[i] in t;
      FlattenMember(bt, t[i]);
      var br :| 0 <= br < |bt| && t[i] in bt[br];
      var bc :| 0 <= bc < n && bt[br][bc] == t[i];
    }
    TableCount(t, N);
  }

  // ---------------------------------------------------------------------------
  // The clue family

  /**
   * The clue clauses are the unit clauses [var(r, c, board[r][c] - 1)] of the
   * non-zero cells; an empty cell contributes nothing.
   */
  lemma ClueMember(g: seq<seq<int>>, cl: Clause)
    requires Square(g)
    ensures cl in ClueClauses(g) <==>
            exists r, c :: 0 <= r < |g| && 0 <= c < |g| && g[r][c] != 0 && cl == [Var(r, c, g[r][c] - 1, |g|)]
  {
    var t := ClueTable(g);
    FlattenMember(Flatten(t), cl);
    if cl in ClueClauses(g) {
      var k :| 0 <= k < |Flatten(t)| && cl in Flatten(t)[k];
      var x := Flatten(t)[k];
      FlattenMember(t, x);
      var r :| 0 <= r < |t| && x in t[r];
      var c :| 0 <= c < |g| && t[r][c] == x;
      assert x == ClueOf(g, r, c);
    }
    if exists r, c :: 0 <= r < |g| && 0 <= c < |g| && g[r][c] != 0 && cl == [Var(r, c, g[r][c] - 1, |g|)] {
      var r, c :| 0 <= r < |g| && 0 <= c < |g| && g[r][c] != 0 && cl == [Var(r, c, g[r][c] - 1, |g|)];
      var x := ClueOf(g, r, c);
      assert x == t[r][c] && cl in x;
      FlattenMember(t, x);
      var k :| 0 <= k < |Flatten(t)| && Flatten(t)[k] == x;
    }
  }

  /**
   * Cells that emit one clause when non-zero and none when zero: over the
   * first c cells, clauses and zeros add up to c.
   */
  lemma {:induction false} NonZeroPrefix(x: seq<seq<Clause>>, s: seq<int>, c: nat)
    requires |x| == |s| && c <= |s|
    requires forall i :: 0 <= i < |s| ==> |x[i]| == (if s[i] != 0 then 1 else 0)
    ensures |Flatten(x[..c])| + multiset(s[..c])[0] == c
  {
    if c > 0 {
      NonZeroPrefix(x, s, c - 1);
      FlattenPrefix(x, c - 1);
      assert s[..c] == s[..c - 1] + [s[c - 1]];
    }
  }

  /**
   * Rows whose clauses and zeros add up to their length: over the first k
   * rows they add up to the number of cells in those rows.
   */
  lemma {:induction false} RowsPrefix(t: seq<seq<seq<Clause>>>, g: seq<seq<int>>, k: nat)
    requires |t| == |g| && k <= |g|
    requires forall r :: 0 <= r < |g| ==> |Flatten(t[r])| + multiset(g[r])[0] == |g[r]|
    ensures |Flatten(Flatten(t[..k]))| + multiset(Flatten(g[..k]))[0] == |Flatten(g[..k])|
  {
    if k > 0 {
      RowsPrefix(t, g, k - 1);
      FlattenTwicePrefix(t, k - 1);
      FlattenPrefix(g, k - 1);
    }
  }

  /** There are exactly as many clue clauses as non-zero cells. */
  lemma ClueCount(g: seq<seq<int>>)
    requires Square(g)
    ensures |ClueClauses(g)| + multiset(Flatten(g))[0] == |g| * |g|
  {
    var t := ClueTable(g);
    forall r | 0 <= r < |g|
      ensures |Flatten(t[r])| + multiset(g[r])[0] == |g[r]|
    {
      var x := t[r];
      assert x == ClueRow(g, r);
      forall i | 0 <= i < |g|
        ensures |x[i]| == (if g[r][i] != 0 then 1 else 0)
      {
        assert x[i] == ClueOf(g, r, i);
      }
      NonZeroPrefix(x, g[r], |g|);
      assert x[..|g|] == x && g[r][..|g|] == g[r];
    }
    RowsPrefix(t, g, |g|);
    assert t[..|g|] == t && g[..|g|] == g;
    FlattenLength(g, |g|);
  }

  /**
   * The whole formula: four structural families of N^2 (1 + N(N-1)/2)
   * clauses each, then the clue clauses.
   */
  lemma FormulaLength(g: seq<seq<int>>)
    requires Square(g) && IsPerfectSquare(|g|)
    ensures |Formula(g)| == 4 * FamilySize(|g|) + |ClueClauses(g)|
  {
    var N := |g|;
    CellCount(N);
    RowCount(N);
    ColumnCount(N);
    BlockCount(N, FloorSqrt(N));
  }

  // ---------------------------------------------------------------------------
  // Every literal names one of the N^3 declared variables

  /** A family whose groups hold variables among 1..bound stays within 1..bound. */
  lemma TableWithin(t: seq<seq<seq<int>>>, bound: int)
    requires forall i, j, k :: 0 <= i < |t| && 0 <= j < |t[i]| && 0 <= k < |t[i][j]| ==> 1 <= t[i][j][k] <= bound
    ensures ClausesWithin(FamilyClauses(Flatten(t)), bound)
  {
    forall x, l | x in Flatten(t) && l in x
      ensures 1 <= l <= bound
    {
      FlattenMember(t, x);
      var i :| 0 <= i < |t| && x in t[i];
      var j :| 0 <= j < |t[i]| && t[i][j] == x;
      var k :| 0 <= k < |x| && x[k] == l;
    }
    FamilyWithin(Flatten(t), bound);
  }

  lemma StructuralWithin(N: nat)
    ensures ClausesWithin(CellClauses(N), N * N * N)
    ensures ClausesWithin(RowClauses(N), N * N * N)
    ensures ClausesWithin(ColumnClauses(N), N * N * N)
  {
    forall a, b, k | 0 <= a < N && 0 <= b < N && 0 <= k < N
      ensures 1 <= Var(a, b, k, N) <= N * N * N
      ensures 1 <= Var(a, k, b, N) <= N * N * N
      ensures 1 <= Var(k, a, b, N) <= N * N * N
    {
      VarRange(a, b, k, N);
      VarRange(a, k, b, N);
      VarRange(k, a, b, N);
    }
    TableWithin(CellTable(N), N * N * N);
    TableWithin(RowTable(N), N * N * N);
    TableWithin(ColumnTable(N), N * N * N);
  }

  lemma BlockWithin(N: nat, n: nat)
    requires n * n == N
    ensures ClausesWithin(BlockClauses(N, n), N * N * N)
  {
    var bt := BlockTable(N, n);
    var t := Flatten(bt);
    forall i, j, k | 0 <= i < |t| && 0 <= j < |t[i]| && 0 <= k < |t[i][j]|
      ensures 1 <= t[i][j][k] <= N * N * N
    {
      assert t[i] in t;
      FlattenMember(bt, t[i]);
      var br :| 0 <= br < n && t[i] in bt[br];
      var bc :| 0 <= bc < n && bt[br][bc] == t[i];
      BlockCoordinateBound(br, k, n);
      BlockCoordinateBound(bc, k, n);
      VarRange(br * n + k / n, bc * n + k % n, j, N);
    }
    TableWithin(t, N * N * N);
  }

  lemma ClueWithin(g: seq<seq<int>>)
    requires Square(g)
    requires forall r, c :: 0 <= r < |g| && 0 <= c < |g| ==> InRange(g[r][c], |g|)
    ensures ClausesWithin(ClueClauses(g), |g| * |g| * |g|)
  {
    forall cl, l | cl in ClueClauses(g) && l in cl
      ensures LiteralWithin(l, |g| * |g| * |g|)
    {
      ClueMember(g, cl);
      var r, c :| 0 <= r < |g| && 0 <= c < |g| && g[r][c] != 0 && cl == [Var(r, c, g[r][c] - 1, |g|)];
      VarRange(r, c, g[r][c] - 1, |g|);
    }
  }

  /**
   * Every literal the encoder emits for a well-formed board names one of the
   * N^3 variables buildSolver declares.
   */
  lemma FormulaWithin(g: seq<seq<int>>)
    requires Square(g) && IsPerfectSquare(|g|)
    requires forall r, c :: 0 <= r < |g| && 0 <= c < |g| ==> InRange(g[r][c], |g|)
    ensures ClausesWithin(Formula(g), |g| * |g| * |g|)
  {
    var N := |g|;
    StructuralWithin(N);
    BlockWithin(N, FloorSqrt(N));
    ClueWithin(g);
  }
}
