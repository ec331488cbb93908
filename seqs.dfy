/** Concatenation of nested sequences, the shape of the source's nested loops. */
module Seqs {

  /** The elements of t[0], then t[1], and so on, left to right. */
  function Flatten<T>(t: seq<seq<T>>): seq<T>
  {
    if t == [] then [] else Flatten(t[..|t| - 1]) + t[|t| - 1]
  }

  /**
   * Regrouping a concatenation.  Called from loops whose invariant appends to
   * an accumulator, where proving it in place is far costlier.
   */
  lemma AppendAssoc<T>(a: seq<T>, b: seq<T>, c: seq<T>)
    ensures a + b + c == a + (b + c)
  {
  }

  lemma FlattenSnoc<T>(t: seq<seq<T>>, s: seq<T>)
    ensures Flatten(t + [s]) == Flatten(t) + s
  {
    assert (t + [s])[..|t|] == t;
  }

  /** One more completed iteration of an outer loop appends one inner sequence. */
  lemma FlattenPrefix<T>(t: seq<seq<T>>, k: nat)
    requires k < |t|
    ensures Flatten(t[..k + 1]) == Flatten(t[..k]) + t[k]
  {
    assert t[..k + 1] == t[..k] + [t[k]];
    FlattenSnoc(t[..k], t[k]);
  }

  lemma {:induction false} FlattenAppend<T>(a: seq<seq<T>>, b: seq<seq<T>>)
    ensures Flatten(a + b) == Flatten(a) + Flatten(b)
    decreases |b|
  {
    if b == [] {
      assert a + b == a;
    } else {
      var b', x := b[..|b| - 1], b[|b| - 1];
      assert b == b' + [x];
      assert a + b == (a + b') + [x];
      calc {
        Flatten(a + b);
        { FlattenSnoc(a + b', x); }
        Flatten(a + b') + x;
        { FlattenAppend(a, b'); }
        Flatten(a) + Flatten(b') + x;
        { FlattenSnoc(b', x); }
        Flatten(a) + Flatten(b);
      }
    }
  }

  /** One more completed iteration of the outer of three nested loops. */
  lemma FlattenTwicePrefix<T>(t: seq<seq<seq<T>>>, k: nat)
    requires k < |t|
    ensures Flatten(Flatten(t[..k + 1])) == Flatten(Flatten(t[..k])) + Flatten(t[k])
  {
    FlattenPrefix(t, k);
    FlattenAppend(Flatten(t[..k]), t[k]);
  }

  lemma {:induction false} FlattenMember<T>(t: seq<seq<T>>, x: T)
    ensures x in Flatten(t) <==> exists i :: 0 <= i < |t| && x in t[i]
  {
    if t != [] {
      var p := t[..|t| - 1];
      FlattenMember(p, x);
      assert forall i :: 0 <= i < |p| ==> p[i] == t[i];
    }
  }

  lemma {:induction false} FlattenLength<T>(t: seq<seq<T>>, w: nat)
    requires forall i :: 0 <= i < |t| ==> |t[i]| == w
    ensures |Flatten(t)| == |t| * w
  {
    if t != [] {
      FlattenLength(t[..|t| - 1], w);
      assert |Flatten(t)| == (|t| - 1) * w + w;
    }
  }

  /** When every element of every t[i] has length w, so does every element of Flatten(t). */
  lemma FlattenUniform<T>(t: seq<seq<seq<T>>>, w: nat)
    requires forall i, j :: 0 <= i < |t| && 0 <= j < |t[i]| ==> |t[i][j]| == w
    ensures forall x :: x in Flatten(t) ==> |x| == w
  {
    forall x | x in Flatten(t)
      ensures |x| == w
    {
      FlattenMember(t, x);
      var i :| 0 <= i < |t| && x in t[i];
      var j :| 0 <= j < |t[i]| && t[i][j] == x;
    }
  }

  /** In rows of width w, t[i][j] sits at position i * w + j of Flatten(t). */
  lemma {:induction false} FlattenAt<T>(t: seq<seq<T>>, w: nat, i: nat, j: nat)
    requires forall k :: 0 <= k < |t| ==> |t[k]| == w
    requires i < |t| && j < w
    ensures |Flatten(t)| == |t| * w
    ensures i * w + j < |Flatten(t)| && Flatten(t)[i * w + j] == t[i][j]
  {
    var p := t[..|t| - 1];
    FlattenLength(t, w);
    FlattenLength(p, w);
    assert |Flatten(p)| == (|t| - 1) * w;
    if i < |t| - 1 {
      FlattenAt(p, w, i, j);
    } else {
      assert i * w + j == |Flatten(p)| + j;
    }
  }
}
