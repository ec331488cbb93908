/**
 * The converse of soundness: every solution of the puzzle is a satisfying
 * assignment of the formula buildSolver emits, and buildSolution decodes that
 * assignment back to the solution.  Together with Soundness this says the
 * formula is satisfiable exactly when the puzzle has a solution.
 */
module Completeness {
  import opened Arith
  import opened Seqs
  import opened Indexer
  import opened Cnf
  import opened Board
  import opened Encoder
  import opened FormulaShape
  import opened Decoder
  import opened Soundness

  // ---------------------------------------------------------------------------
  // The assignment of a grid

  /** Variable x, true when its cell holds its value and negated otherwise. */
  function LiteralOf(d: seq<seq<int>>, x: int): (l: int)
    requires Square(d) && |d| >= 1 && 1 <= x <= |d| * |d| * |d|
    ensures l == x || l == -x
  {
    var s := DecodeVar(x, |d|);
    DecodeRowInRange(x, |d|);
    if d[s.row][s.col] == s.value + 1 then x else -x
  }

  /** The complete assignment of d: one literal per variable 1..N^3, in order. */
  function ModelOf(d: seq<seq<int>>): (m: seq<int>)
    requires Square(d) && |d| >= 1
    ensures |m| == |d| * |d| * |d|
  {
    var N := |d|;
    seq(N * N * N, k requires 0 <= k < N * N * N => LiteralOf(d, k + 1))
  }

  /**
   * Under ModelOf(d), the variable of (r, c, v) is true exactly when cell
   * (r, c) holds v + 1, and negated exactly when it does not.
   */
  lemma ModelMember(d: seq<seq<int>>, r: int, c: int, v: int)
    requires Square(d) && |d| >= 1
    requires 0 <= r < |d| && 0 <= c < |d| && 0 <= v < |d|
    ensures Var(r, c, v, |d|) in ModelOf(d) <==> d[r][c] == v + 1
    ensures -Var(r, c, v, |d|) in ModelOf(d) <==> d[r][c] != v + 1
  {
    var N := |d|;
    var m := ModelOf(d);
    var x := Var(r, c, v, N);
    VarRange(r, c, v, N);
    DecodeVarRoundTrip(r, c, v, N);
    assert m[x - 1] == LiteralOf(d, x);
    forall i | 0 <= i < |m| && (m[i] == x || m[i] == -x)
      ensures i == x - 1
    {
      assert m[i] == LiteralOf(d, i + 1);
    }
  }

  /** ModelOf(d) reports every variable with exactly one sign. */
  lemma ModelDecided(d: seq<seq<int>>)
    requires Square(d) && |d| >= 1
    ensures Decided(ModelOf(d), |d|)
  {
    var N := |d|;
    forall x | 1 <= x <= N * N * N
      ensures x in ModelOf(d) <==> -x !in ModelOf(d)
    {
      var s := DecodeVar(x, N);
      DecodeRowInRange(x, N);
      VarOfDecode(x, N);
      ModelMember(d, s.row, s.col, s.value);
    }
  }

  /** A cell of a board in 0..N decodes from ModelOf(d) to its own value. */
  lemma CellRoundTrip(d: seq<seq<int>>, r: int, c: int)
    requires Square(d) && |d| >= 1 && 0 <= r < |d| && 0 <= c < |d|
    requires InRange(d[r][c], |d|)
    ensures CellValue(|d|, ModelOf(d), r, c) == d[r][c]
  {
    var N, m := |d|, ModelOf(d);
    if d[r][c] == 0 {
      forall i | 0 <= i < |m|
        ensures !Accepts(N, m[i], r, c)
      {
        AcceptsVar(N, m[i], r, c);
        if Accepts(N, m[i], r, c) {
          var v :| 0 <= v < N && m[i] == Var(r, c, v, N);
          ModelMember(d, r, c, v);
        }
      }
      EmptyCell(N, m, r, c);
    } else {
      var v := d[r][c] - 1;
      forall w | 0 <= w < N && w != v
        ensures Var(r, c, w, N) !in m
      {
        ModelMember(d, r, c, w);
      }
      ModelMember(d, r, c, v);
      UniqueValue(N, m, r, c, v);
    }
  }

  /**
   * Decoding the assignment of a board whose cells are in 0..N gives the
   * board back.
   */
  lemma ModelRoundTrip(d: seq<seq<int>>)
    requires Square(d) && |d| >= 1
    requires forall r, c :: 0 <= r < |d| && 0 <= c < |d| ==> InRange(d[r][c], |d|)
    ensures DecodeGrid(|d|, ModelOf(d)) == d
  {
    var e := DecodeGrid(|d|, ModelOf(d));
    forall r | 0 <= r < |d|
      ensures e[r] == d[r]
    {
      forall c | 0 <= c < |d|
        ensures e[r][c] == d[r][c]
      {
        CellRoundTrip(d, r, c);
      }
    }
  }

  // ---------------------------------------------------------------------------
  // Lines of a solved grid

  /** A value at two positions of s occurs at least twice. */
  lemma TwoPositions(s: seq<int>, x: int, i: nat, j: nat)
    requires i < |s| && j < |s| && i != j && s[i] == x && s[j] == x
    ensures multiset(s)[x] >= 2
  {
    var k := if i < j then j else i;
    var l := if i < j then i else j;
    var a, b := s[..k], s[k..];
    assert s == a + b;
    assert a[l] == x;
    assert b[0] == x;
    assert multiset(s) == multiset(a) + multiset(b);
  }

  /** A value occurring once in s sits at exactly one position. */
  lemma OnlyPosition(s: seq<int>, x: int) returns (i: nat)
    requires multiset(s)[x] == 1
    ensures i < |s| && s[i] == x
    ensures forall j :: 0 <= j < |s| && j != i ==> s[j] != x
  {
    assert x in multiset(s);
    i :| 0 <= i < |s| && s[i] == x;
    forall j | 0 <= j < |s| && j != i
      ensures s[j] != x
    {
      if s[j] == x {
        TwoPositions(s, x, i, j);
      }
    }
  }

  /** Each value of a line holding 1..N once each is in 1..N. */
  lemma LineInRange(s: seq<int>, N: nat, k: nat)
    requires |s| == N && EachOnce(s, N) && k < N
    ensures 1 <= s[k] <= N
  {
    EachOnceIsPermutation(s, N);
    assert s[k] in multiset(s);
    OneToCount(N, s[k]);
  }

  /**
   * Group v lists the variables "position k of s holds v + 1", and the
   * assignment makes each true exactly when that is so and negates it
   * otherwise.
   */
  predicate Mirrors(m: seq<int>, s: seq<int>, groups: seq<seq<int>>)
  {
    && (forall v :: 0 <= v < |groups| ==> |groups[v]| == |s|)
    && (forall v, k :: 0 <= v < |groups| && 0 <= k < |s| ==> (s[k] == v + 1 <==> groups[v][k] in m))
    && (forall v, k :: 0 <= v < |groups| && 0 <= k < |s| ==> (s[k] == v + 1 <==> -groups[v][k] !in m))
  }

  /**
   * The converse of EachOnceOfGroups: a line holding each of 1..N once makes
   * every mirroring group have exactly one true literal, and decides it.
   */
  lemma GroupsOfEachOnce(m: seq<int>, s: seq<int>, groups: seq<seq<int>>)
    requires Mirrors(m, s, groups) && EachOnce(s, |groups|)
    ensures forall v :: 0 <= v < |groups| ==> ExactlyOneTrue(m, groups[v]) && Decides(m, groups[v])
  {
    forall v | 0 <= v < |groups|
      ensures ExactlyOneTrue(m, groups[v]) && Decides(m, groups[v])
    {
      var g := groups[v];
      var i := OnlyPosition(s, v + 1);
      assert g[i] in m;
      forall j | 0 <= j < |g| && j != i
        ensures g[j] !in m
      {
        assert s[j] != v + 1;
      }
      forall j | 0 <= j < |g|
        ensures g[j] in m <==> -g[j] !in m
      {
        assert s[j] == v + 1 <==> g[j] in m;
      }
    }
  }

  /** A family holds when each of its groups is decided and has exactly one true literal. */
  lemma FamilyOfGroups(m: seq<int>, gs: seq<seq<int>>)
    requires forall g :: g in gs ==> ExactlyOneTrue(m, g) && Decides(m, g)
    ensures AllHold(m, FamilyClauses(gs))
  {
    forall g | g in gs
      ensures AllHold(m, ExactlyOneClauses(g))
    {
      ClausesOfOneTrue(m, g);
    }
    FamilyHolds(m, gs);
  }

  // ---------------------------------------------------------------------------
  // The four structural families under the assignment of a solved grid

  /** A valid row of d makes its row groups true once each. */
  lemma RowGroupsTrue(d: seq<seq<int>>, r: nat)
    requires Square(d) && |d| >= 1 && r < |d| && EachOnce(d[r], |d|)
    ensures forall v :: 0 <= v < |d| ==>
              ExactlyOneTrue(ModelOf(d), RowGroups(|d|, r)[v]) && Decides(ModelOf(d), RowGroups(|d|, r)[v])
  {
    var N, m := |d|, ModelOf(d);
    forall v, k | 0 <= v < N && 0 <= k < N
      ensures d[r][k] == v + 1 <==> RowGroups(N, r)[v][k] in m
      ensures d[r][k] == v + 1 <==> -RowGroups(N, r)[v][k] !in m
    {
      ModelMember(d, r, k, v);
    }
    GroupsOfEachOnce(m, d[r], RowGroups(N, r));
  }

  /** A valid column of d makes its column groups true once each. */
  lemma ColumnGroupsTrue(d: seq<seq<int>>, c: nat)
    requires Square(d) && |d| >= 1 && c < |d| && EachOnce(Column(d, c), |d|)
    ensures forall v :: 0 <= v < |d| ==>
              ExactlyOneTrue(ModelOf(d), ColumnGroups(|d|, c)[v]) && Decides(ModelOf(d), ColumnGroups(|d|, c)[v])
  {
    var N, m := |d|, ModelOf(d);
    var s := Column(d, c);
    forall v, k | 0 <= v < N && 0 <= k < N
      ensures s[k] == v + 1 <==> ColumnGroups(N, c)[v][k] in m
      ensures s[k] == v + 1 <==> -ColumnGroups(N, c)[v][k] !in m
    {
      ModelMember(d, k, c, v);
    }
    GroupsOfEachOnce(m, s, ColumnGroups(N, c));
  }

  /** A valid block of d makes its block groups true once each. */
  lemma BlockGroupsTrue(d: seq<seq<int>>, n: nat, br: nat, bc: nat)
    requires Square(d) && |d| >= 1 && n * n == |d| && br < n && bc < n
    requires EachOnce(BlockValues(d, n, br, bc), |d|)
    ensures forall v :: 0 <= v < |d| ==>
              ExactlyOneTrue(ModelOf(d), BlockGroups(|d|, n, br, bc)[v]) &&
              Decides(ModelOf(d), BlockGroups(|d|, n, br, bc)[v])
  {
    var N, m := |d|, ModelOf(d);
    var s := BlockValues(d, n, br, bc);
    var groups := BlockGroups(N, n, br, bc);
    BlockValueAt(d, n, br, bc, 0);
    forall v, k | 0 <= v < N && 0 <= k < N
      ensures s[k] == v + 1 <==> groups[v][k] in m
      ensures s[k] == v + 1 <==> -groups[v][k] !in m
    {
      BlockValueAt(d, n, br, bc, k);
      var r, c := br * n + k / n, bc * n + k % n;
      assert groups[v][k] == Var(r, c, v, N);
      ModelMember(d, r, c, v);
    }
    GroupsOfEachOnce(m, s, groups);
  }

  /** A filled cell with a value in 1..N makes its cell group true once. */
  lemma CellGroupTrue(d: seq<seq<int>>, r: nat, c: nat)
    requires Square(d) && |d| >= 1 && r < |d| && c < |d| && 1 <= d[r][c] <= |d|
    ensures ExactlyOneTrue(ModelOf(d), CellGroup(|d|, r, c)) && Decides(ModelOf(d), CellGroup(|d|, r, c))
  {
    var N, m := |d|, ModelOf(d);
    var g := CellGroup(N, r, c);
    forall w | 0 <= w < N
      ensures g[w] in m <==> d[r][c] == w + 1
      ensures -g[w] in m <==> d[r][c] != w + 1
    {
      ModelMember(d, r, c, w);
    }
    assert g[d[r][c] - 1] in m;
  }

  lemma CellFamilyHolds(d: seq<seq<int>>)
    requires Square(d) && |d| >= 1 && RowsValid(d)
    ensures AllHold(ModelOf(d), CellClauses(|d|))
  {
    var N, t := |d|, CellTable(|d|);
    forall g | g in Flatten(t)
      ensures ExactlyOneTrue(ModelOf(d), g) && Decides(ModelOf(d), g)
    {
      FlattenMember(t, g);
      var r :| 0 <= r < N && g in t[r];
      var c :| 0 <= c < N && t[r][c] == g;
      LineInRange(d[r], N, c);
      CellGroupTrue(d, r, c);
    }
    FamilyOfGroups(ModelOf(d), Flatten(t));
  }

  lemma RowFamilyHolds(d: seq<seq<int>>)
    requires Square(d) && |d| >= 1 && RowsValid(d)
    ensures AllHold(ModelOf(d), RowClauses(|d|))
  {
    var N, t := |d|, RowTable(|d|);
    forall g | g in Flatten(t)
      ensures ExactlyOneTrue(ModelOf(d), g) && Decides(ModelOf(d), g)
    {
      FlattenMember(t, g);
      var r :| 0 <= r < N && g in t[r];
      var v :| 0 <= v < N && t[r][v] == g;
      RowGroupsTrue(d, r);
    }
    FamilyOfGroups(ModelOf(d), Flatten(t));
  }

  lemma ColumnFamilyHolds(d: seq<seq<int>>)
    requires Square(d) && |d| >= 1 && ColumnsValid(d)
    ensures AllHold(ModelOf(d), ColumnClauses(|d|))
  {
    var N, t := |d|, ColumnTable(|d|);
    forall g | g in Flatten(t)
      ensures ExactlyOneTrue(ModelOf(d), g) && Decides(ModelOf(d), g)
    {
      FlattenMember(t, g);
      var c :| 0 <= c < N && g in t[c];
      var v :| 0 <= v < N && t[c][v] == g;
      ColumnGroupsTrue(d, c);
    }
    FamilyOfGroups(ModelOf(d), Flatten(t));
  }

  /** Every group of the block family is the group of some value v of some block (br, bc). */
  lemma BlockFamilyMember(N: nat, n: nat, g: seq<int>) returns (br: nat, bc: nat, v: nat)
    requires n * n == N && g in Flatten(Flatten(BlockTable(N, n)))
    ensures br < n && bc < n && v < N && g == BlockGroups(N, n, br, bc)[v]
  {
    var t := BlockTable(N, n);
    var rows := Flatten(t);
    FlattenMember(rows, g);
    var i :| 0 <= i < |rows| && g in rows[i];
    var blockGroups := rows[i];
    FlattenMember(t, blockGroups);
    br :| 0 <= br < n && blockGroups in t[br];
    bc :| 0 <= bc < n && t[br][bc] == blockGroups;
    assert g in BlockGroups(N, n, br, bc);
    v :| 0 <= v < N && BlockGroups(N, n, br, bc)[v] == g;
  }

  lemma BlockFamilyHolds(d: seq<seq<int>>, n: nat)
    requires Square(d) && |d| >= 1 && n * n == |d| && BlocksValid(d, n)
    ensures AllHold(ModelOf(d), BlockClauses(|d|, n))
  {
    var N := |d|;
    var gs := Flatten(Flatten(BlockTable(N, n)));
    forall g | g in gs
      ensures ExactlyOneTrue(ModelOf(d), g) && Decides(ModelOf(d), g)
    {
      var br, bc, v := BlockFamilyMember(N, n, g);
      BlockGroupsTrue(d, n, br, bc);
    }
    FamilyOfGroups(ModelOf(d), gs);
  }

  /** A grid that keeps every clue of g satisfies g's clue clauses. */
  lemma ClueFamilyHolds(g: seq<seq<int>>, d: seq<seq<int>>)
    requires Square(g) && Square(d) && |d| == |g| >= 1
    requires forall r, c :: 0 <= r < |g| && 0 <= c < |g| ==> InRange(g[r][c], |g|)
    requires forall r, c :: 0 <= r < |g| && 0 <= c < |g| && g[r][c] != 0 ==> d[r][c] == g[r][c]
    ensures AllHold(ModelOf(d), ClueClauses(g))
  {
    forall cl | cl in ClueClauses(g)
      ensures ClauseHolds(ModelOf(d), cl)
    {
      ClueMember(g, cl);
      var r, c :| 0 <= r < |g| && 0 <= c < |g| && g[r][c] != 0 && cl == [Var(r, c, g[r][c] - 1, |g|)];
      ModelMember(d, r, c, g[r][c] - 1);
      assert cl[0] in ModelOf(d);
    }
  }

  // ---------------------------------------------------------------------------
  // The theorem

  /**
   * Completeness of the reduction: a solved grid d that keeps every clue of a
   * board g the constructor accepts gives a decided assignment satisfying the
   * formula buildSolver emits for g, which buildSolution decodes back to d.
   */
  lemma ModelOfSolution(g: seq<seq<int>>, d: seq<seq<int>>)
    requires Square(g) && |g| >= 1 && IsPerfectSquare(|g|)
    requires forall r, c :: 0 <= r < |g| && 0 <= c < |g| ==> InRange(g[r][c], |g|)
    requires Square(d) && |d| == |g| && SolvedGrid(d)
    requires forall r, c :: 0 <= r < |g| && 0 <= c < |g| && g[r][c] != 0 ==> d[r][c] == g[r][c]
    ensures Decided(ModelOf(d), |g|)
    ensures AllHold(ModelOf(d), Formula(g))
    ensures DecodeGrid(|g|, ModelOf(d)) == d
  {
    var N, m := |g|, ModelOf(d);
    var n := FloorSqrt(N);
    ModelDecided(d);
    CellFamilyHolds(d);
    RowFamilyHolds(d);
    ColumnFamilyHolds(d);
    BlockFamilyHolds(d, n);
    ClueFamilyHolds(g, d);
    var cells, rows, columns, blocks := CellClauses(N), RowClauses(N), ColumnClauses(N), BlockClauses(N, n);
    AllHoldAppend(m, cells, rows);
    AllHoldAppend(m, cells + rows, columns);
    AllHoldAppend(m, cells + rows + columns, blocks);
    AllHoldAppend(m, cells + rows + columns + blocks, ClueClauses(g));
    forall r, c | 0 <= r < N && 0 <= c < N
      ensures InRange(d[r][c], N)
    {
      LineInRange(d[r], N, c);
    }
    ModelRoundTrip(d);
  }

  /** d is a solution of the puzzle g: a solved grid of the same size that keeps every clue of g. */
  predicate SolutionOf(g: seq<seq<int>>, d: seq<seq<int>>)
    requires Square(g) && IsPerfectSquare(|g|)
  {
    && Square(d) && |d| == |g| && SolvedGrid(d)
    && forall r, c :: 0 <= r < |g| && 0 <= c < |g| && g[r][c] != 0 ==> d[r][c] == g[r][c]
  }

  /** m is a complete assignment satisfying the formula of g. */
  predicate Satisfies(g: seq<seq<int>>, m: seq<int>)
    requires Square(g) && IsPerfectSquare(|g|)
  {
    Decided(m, |g|) && AllHold(m, Formula(g))
  }

  /**
   * The reduction is correct: the formula buildSolver emits for a board the
   * constructor accepts has a satisfying complete assignment if and only if
   * the puzzle has a solution.
   */
  lemma ReductionCorrect(g: seq<seq<int>>)
    requires Square(g) && |g| >= 1 && IsPerfectSquare(|g|)
    requires forall r, c :: 0 <= r < |g| && 0 <= c < |g| ==> InRange(g[r][c], |g|)
    ensures (exists m :: Satisfies(g, m)) <==> (exists d :: SolutionOf(g, d))
  {
    if m :| Satisfies(g, m) {
      SolutionOfModel(g, m);
      assert SolutionOf(g, DecodeGrid(|g|, m));
    }
    if d :| SolutionOf(g, d) {
      ModelOfSolution(g, d);
      assert Satisfies(g, ModelOf(d));
    }
  }
}
