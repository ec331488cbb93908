/**
 * The CNF formula the encoder builds, the canonical exactly-one encoding it is
 * made of, and what it means for a model to satisfy it.
 *
 * ClauseSink stands in for the SAT solver object of SudokuSolver.java: the
 * encoder only ever declares the variable count and adds clauses to it, so the
 * solver is modelled as an accumulator of those calls.
 */
module Cnf {
  import opened Seqs

  /** A disjunction of literals; a negative literal is a negated variable. */
  type Clause = seq<int>

  class ClauseSink {
    /** The number of variables declared with NewVar. */
    var numVars: nat
    /** The clauses added so far, in the order they were added. */
    var clauses: seq<Clause>

    constructor ()
      ensures numVars == 0 && clauses == []
    {
      numVars := 0;
      clauses := [];
    }

    /** Declares the variables 1..howMany. */
    method NewVar(howMany: nat)
      modifies this`numVars
      ensures numVars == howMany
    {
      numVars := howMany;
    }

    /** Appends one clause to the formula. */
    method AddClause(literals: Clause)
      modifies this`clauses
      ensures clauses == old(clauses) + [literals]
    {
      clauses := clauses + [literals];
    }
  }

  // ---------------------------------------------------------------------------
  // The exactly-one encoding of a group of literals g

  /** Not both g[a] and g[b]: the clause [-g[a], -g[b]]. */
  function NotBoth(g: seq<int>, a: nat, b: nat): Clause
    requires a < |g| && b < |g|
  {
    [-g[a], -g[b]]
  }

  /** The clauses NotBoth(g, i, j) for i < j < k, in increasing j. */
  function NegatedPairs(g: seq<int>, i: nat, k: nat): seq<Clause>
    requires i < k <= |g|
    decreases k
  {
    if k == i + 1 then [] else NegatedPairs(g, i, k - 1) + [NotBoth(g, i, k - 1)]
  }

  /** The pair clauses whose first index is below i, in the source's loop order. */
  function PairsBelow(g: seq<int>, i: nat): seq<Clause>
    requires i <= |g|
  {
    if i == 0 then [] else PairsBelow(g, i - 1) + NegatedPairs(g, i - 1, |g|)
  }

  /** At most one literal of g is true: one two-literal clause per pair. */
  function AtMostOneClauses(g: seq<int>): seq<Clause>
  {
    PairsBelow(g, |g|)
  }

  /** At least one and at most one literal of g is true. */
  function ExactlyOneClauses(g: seq<int>): seq<Clause>
  {
    [g] + AtMostOneClauses(g)
  }

  /** The exactly-one clauses of every group, group after group. */
  function FamilyClauses(gs: seq<seq<int>>): seq<Clause>
  {
    if gs == [] then [] else FamilyClauses(gs[..|gs| - 1]) + ExactlyOneClauses(gs[|gs| - 1])
  }

  lemma FamilySnoc(gs: seq<seq<int>>, g: seq<int>)
    ensures FamilyClauses(gs + [g]) == FamilyClauses(gs) + ExactlyOneClauses(g)
  {
    assert (gs + [g])[..|gs|] == gs;
  }

  lemma {:induction false} FamilyAppend(a: seq<seq<int>>, b: seq<seq<int>>)
    ensures FamilyClauses(a + b) == FamilyClauses(a) + FamilyClauses(b)
    decreases |b|
  {
    if b == [] {
      assert a + b == a;
    } else {
      var b' := b[..|b| - 1];
      assert a + b == (a + b') + [b[|b| - 1]];
      FamilySnoc(a + b', b[|b| - 1]);
      FamilyAppend(a, b');
      assert b == b' + [b[|b| - 1]];
      FamilySnoc(b', b[|b| - 1]);
    }
  }

  /** One more iteration of a loop over groups appends that group's clauses. */
  lemma FamilyPrefix(gs: seq<seq<int>>, k: nat)
    requires k < |gs|
    ensures FamilyClauses(gs[..k + 1]) == FamilyClauses(gs[..k]) + ExactlyOneClauses(gs[k])
  {
    assert gs[..k + 1] == gs[..k] + [gs[k]];
    FamilySnoc(gs[..k], gs[k]);
  }

  /** One more iteration of an outer loop appends the clauses of its whole row of groups. */
  lemma FamilyRows(t: seq<seq<seq<int>>>, k: nat)
    requires k < |t|
    ensures FamilyClauses(Flatten(t[..k + 1])) == FamilyClauses(Flatten(t[..k])) + FamilyClauses(t[k])
  {
    FlattenPrefix(t, k);
    FamilyAppend(Flatten(t[..k]), t[k]);
  }

  /** The same for the outer of three nested loops. */
  lemma FamilyRowsTwice(t: seq<seq<seq<seq<int>>>>, k: nat)
    requires k < |t|
    ensures FamilyClauses(Flatten(Flatten(t[..k + 1]))) ==
            FamilyClauses(Flatten(Flatten(t[..k]))) + FamilyClauses(Flatten(t[k]))
  {
    FlattenTwicePrefix(t, k);
    FamilyAppend(Flatten(Flatten(t[..k])), Flatten(t[k]));
  }

  // ---------------------------------------------------------------------------
  // Emitting the encoding

  /**
   * The pairwise loops of every exactly-one group: for each i < j, the clause
   * NotBoth(g, i, j), with i in the outer and j in the inner loop.
   */
  method AddAtMostOne(sink: ClauseSink, g: seq<int>)
    modifies sink`clauses
    ensures sink.clauses == old(sink.clauses) + AtMostOneClauses(g)
  {
    for i := 0 to |g|
      invariant sink.clauses == old(sink.clauses) + PairsBelow(g, i)
    {
      for j := i + 1 to |g|
        invariant sink.clauses == old(sink.clauses) + PairsBelow(g, i) + NegatedPairs(g, i, j)
      {
        sink.AddClause(NotBoth(g, i, j));
      }
    }
  }

  /** One exactly-one group: its at-least-one clause, then its pair clauses. */
  method AddExactlyOne(sink: ClauseSink, g: seq<int>)
    modifies sink`clauses
    ensures sink.clauses == old(sink.clauses) + ExactlyOneClauses(g)
  {
    sink.AddClause(g);
    AddAtMostOne(sink, g);
    AppendAssoc(old(sink.clauses), [g], AtMostOneClauses(g));
  }

  // ---------------------------------------------------------------------------
  // Shape and size of the encoding

  lemma {:induction false} NegatedPairsShape(g: seq<int>, i: nat, k: nat, cl: Clause)
    requires i < k <= |g|
    ensures cl in NegatedPairs(g, i, k) <==> exists j :: i < j < k && cl == NotBoth(g, i, j)
    decreases k
  {
    if k != i + 1 {
      NegatedPairsShape(g, i, k - 1, cl);
    }
  }

  lemma {:induction false} PairsBelowShape(g: seq<int>, i: nat, cl: Clause)
    requires i <= |g|
    ensures cl in PairsBelow(g, i) <==>
            exists a, b :: 0 <= a < i && a < b < |g| && cl == NotBoth(g, a, b)
  {
    if i > 0 {
      var earlier, last := PairsBelow(g, i - 1), NegatedPairs(g, i - 1, |g|);
      assert PairsBelow(g, i) == earlier + last;
      PairsBelowShape(g, i - 1, cl);
      NegatedPairsShape(g, i - 1, |g|, cl);
      if cl in last {
        var b :| i - 1 < b < |g| && cl == NotBoth(g, i - 1, b);
      }
      if exists a, b :: 0 <= a < i && a < b < |g| && cl == NotBoth(g, a, b) {
        var a, b :| 0 <= a < i && a < b < |g| && cl == NotBoth(g, a, b);
        if a == i - 1 {
          assert i - 1 < b < |g| && cl == NotBoth(g, i - 1, b);
        }
      }
    }
  }

  /**
   * The at-most-one clauses are exactly the clauses NotBoth(g, a, b) for the
   * pairs a < b of positions in g.
   */
  lemma AtMostOneShape(g: seq<int>, cl: Clause)
    ensures cl in AtMostOneClauses(g) <==>
            exists a, b :: 0 <= a < b < |g| && cl == NotBoth(g, a, b)
  {
    PairsBelowShape(g, |g|, cl);
  }

  lemma {:induction false} NegatedPairsLength(g: seq<int>, i: nat, k: nat)
    requires i < k <= |g|
    ensures |NegatedPairs(g, i, k)| == k - i - 1
    decreases k
  {
    if k != i + 1 {
      NegatedPairsLength(g, i, k - 1);
    }
  }

  lemma {:induction false} PairsBelowLength(g: seq<int>, i: nat)
    requires i <= |g|
    ensures 2 * |PairsBelow(g, i)| == i * (2 * |g| - i - 1)
  {
    if i > 0 {
      PairsBelowLength(g, i - 1);
      NegatedPairsLength(g, i - 1, |g|);
      var t := 2 * |g| - i;
      assert (i - 1) * t == i * t - t;
      assert i * (t - 1) == i * t - i;
    }
  }

  /** A group of k literals gets 1 + k(k-1)/2 clauses. */
  lemma ExactlyOneLength(g: seq<int>)
    ensures |AtMostOneClauses(g)| == |g| * (|g| - 1) / 2
    ensures |ExactlyOneClauses(g)| == 1 + |g| * (|g| - 1) / 2
  {
    PairsBelowLength(g, |g|);
    assert |g| * (2 * |g| - |g| - 1) == |g| * (|g| - 1);
  }

  /** Groups of w literals each give 1 + w(w-1)/2 clauses per group. */
  lemma {:induction false} FamilyLength(gs: seq<seq<int>>, w: nat)
    requires forall k :: 0 <= k < |gs| ==> |gs[k]| == w
    ensures |FamilyClauses(gs)| == |gs| * (1 + w * (w - 1) / 2)
  {
    if gs != [] {
      FamilyLength(gs[..|gs| - 1], w);
      ExactlyOneLength(gs[|gs| - 1]);
      assert |FamilyClauses(gs)| == (|gs| - 1) * (1 + w * (w - 1) / 2) + (1 + w * (w - 1) / 2);
    }
  }

  lemma {:induction false} FamilyMember(gs: seq<seq<int>>, cl: Clause)
    ensures cl in FamilyClauses(gs) <==> exists g :: g in gs && cl in ExactlyOneClauses(g)
  {
    if gs != [] {
      var p := gs[..|gs| - 1];
      FamilyMember(p, cl);
      assert gs == p + [gs[|gs| - 1]];
    }
  }

  /** A literal names one of the variables 1..bound, negated or not. */
  predicate LiteralWithin(l: int, bound: int)
  {
    1 <= l <= bound || -bound <= l <= -1
  }

  /** Every literal of every clause names one of the variables 1..bound. */
  predicate ClausesWithin(cls: seq<Clause>, bound: int)
  {
    forall cl, l :: cl in cls && l in cl ==> LiteralWithin(l, bound)
  }

  /**
   * When every group lists variables among 1..bound, every clause of the family
   * (the groups themselves and the negated pairs) stays within 1..bound.
   */
  lemma FamilyWithin(gs: seq<seq<int>>, bound: int)
    requires forall g, l :: g in gs && l in g ==> 1 <= l <= bound
    ensures ClausesWithin(FamilyClauses(gs), bound)
  {
    forall cl, l | cl in FamilyClauses(gs) && l in cl
      ensures LiteralWithin(l, bound)
    {
      FamilyMember(gs, cl);
      var g :| g in gs && cl in ExactlyOneClauses(g);
      if cl != g {
        AtMostOneShape(g, cl);
        var a, b :| 0 <= a < b < |g| && cl == NotBoth(g, a, b);
        assert g[a] in g && g[b] in g;
      }
    }
  }

  // ---------------------------------------------------------------------------
  // Meaning: a model is the sequence of literals the solver reports true

  /** Some literal of the clause is reported true. */
  predicate ClauseHolds(m: seq<int>, cl: Clause)
  {
    exists l :: l in cl && l in m
  }

  /** Every clause holds. */
  predicate AllHold(m: seq<int>, cls: seq<Clause>)
  {
    forall cl :: cl in cls ==> ClauseHolds(m, cl)
  }

  /** Each literal of g is reported either true or false, never both. */
  predicate Decides(m: seq<int>, g: seq<int>)
  {
    forall i :: 0 <= i < |g| ==> (g[i] in m <==> -g[i] !in m)
  }

  /** Exactly one position of g holds a true literal. */
  predicate ExactlyOneTrue(m: seq<int>, g: seq<int>)
  {
    exists i :: 0 <= i < |g| && g[i] in m && forall j :: 0 <= j < |g| && j != i ==> g[j] !in m
  }

  /** When the exactly-one clauses hold, some literal of g is true and no other is. */
  lemma OneTrueOfClauses(m: seq<int>, g: seq<int>)
    requires Decides(m, g) && AllHold(m, ExactlyOneClauses(g))
    ensures ExactlyOneTrue(m, g)
  {
    assert g in ExactlyOneClauses(g);
    var l :| l in g && l in m;
    var i :| 0 <= i < |g| && g[i] == l;
    forall j | 0 <= j < |g| && j != i
      ensures g[j] !in m
    {
      var a, b := if i < j then i else j, if i < j then j else i;
      AtMostOneShape(g, NotBoth(g, a, b));
      assert NotBoth(g, a, b) in ExactlyOneClauses(g);
      assert ClauseHolds(m, NotBoth(g, a, b));
    }
  }

  /** When exactly one literal of g is true, every exactly-one clause holds. */
  lemma ClausesOfOneTrue(m: seq<int>, g: seq<int>)
    requires Decides(m, g) && ExactlyOneTrue(m, g)
    ensures AllHold(m, ExactlyOneClauses(g))
  {
    var i :| 0 <= i < |g| && g[i] in m && forall j :: 0 <= j < |g| && j != i ==> g[j] !in m;
    forall cl | cl in ExactlyOneClauses(g)
      ensures ClauseHolds(m, cl)
    {
      if cl == g {
        assert g[i] in cl;
      } else {
        assert cl in AtMostOneClauses(g);
        AtMostOneShape(g, cl);
        var a, b :| 0 <= a < b < |g| && cl == NotBoth(g, a, b);
        var k := if a == i then b else a;
        assert -g[k] in cl;
      }
    }
  }

  /**
   * The exactly-one encoding is correct: under a model that decides every
   * literal of g, the at-least-one clause and all pair clauses hold exactly
   * when one literal of g is true.
   */
  lemma ExactlyOneSemantics(m: seq<int>, g: seq<int>)
    requires Decides(m, g)
    ensures AllHold(m, ExactlyOneClauses(g)) <==> ExactlyOneTrue(m, g)
  {
    if AllHold(m, ExactlyOneClauses(g)) {
      OneTrueOfClauses(m, g);
    }
    if ExactlyOneTrue(m, g) {
      ClausesOfOneTrue(m, g);
    }
  }

  /** A family holds exactly when every group's exactly-one clauses hold. */
  lemma FamilyHolds(m: seq<int>, gs: seq<seq<int>>)
    ensures AllHold(m, FamilyClauses(gs)) <==>
            forall g :: g in gs ==> AllHold(m, ExactlyOneClauses(g))
  {
    forall cl {:trigger cl in FamilyClauses(gs)} {
      FamilyMember(gs, cl);
    }
  }
}
