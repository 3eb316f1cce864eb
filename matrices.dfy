/**
 Integer matrices as sequences of rows, with the array operations the
 phase-space builders are assembled from (identity, scaling, block
 concatenation) and the products used to state their algebraic properties.
 */
module Matrices {

  type Matrix = seq<seq<int>>

  /** Every row has as many entries as the matrix has rows. */
  predicate Square(m: Matrix)
  {
    forall i :: 0 <= i < |m| ==> |m[i]| == |m|
  }

  /** The d-by-d identity matrix. */
  function Identity(d: nat): (id: Matrix)
    ensures |id| == d && Square(id)
    ensures forall i, j :: 0 <= i < d && 0 <= j < d ==> id[i][j] == (if i == j then 1 else 0)
  {
    seq(d, i => seq(d, j => if i == j then 1 else 0))
  }

  /** Entrywise product with the scalar c; keeps the shape of every row. */
  function Scale(c: int, m: Matrix): (r: Matrix)
    ensures |r| == |m|
    ensures forall i :: 0 <= i < |m| ==> |r[i]| == |m[i]|
    ensures forall i, j :: 0 <= i < |m| && 0 <= j < |m[i]| ==> r[i][j] == c * m[i][j]
  {
    seq(|m|, i requires 0 <= i < |m| => seq(|m[i]|, j requires 0 <= j < |m[i]| => c * m[i][j]))
  }

  /** Entrywise negation. */
  function Negate(m: Matrix): (r: Matrix)
    ensures |r| == |m|
    ensures forall i :: 0 <= i < |m| ==> |r[i]| == |m[i]|
    ensures forall i, j :: 0 <= i < |m| && 0 <= j < |m[i]| ==> r[i][j] == -m[i][j]
  {
    Scale(-1, m)
  }

  /** Side-by-side concatenation: row i of the result is row i of a followed by row i of b. */
  function HConcat(a: Matrix, b: Matrix): (r: Matrix)
    requires |a| == |b|
    ensures |r| == |a|
    ensures forall i :: 0 <= i < |a| ==> |r[i]| == |a[i]| + |b[i]|
    ensures forall i, j :: 0 <= i < |a| && 0 <= j < |a[i]| + |b[i]| ==>
      r[i][j] == if j < |a[i]| then a[i][j] else b[i][j - |a[i]|]
  {
    seq(|a|, i requires 0 <= i < |a| => a[i] + b[i])
  }

  /** Top-to-bottom concatenation: the rows of a followed by the rows of b. */
  function VConcat(a: Matrix, b: Matrix): (r: Matrix)
    ensures |r| == |a| + |b|
    ensures forall i :: 0 <= i < |a| + |b| ==> r[i] == if i < |a| then a[i] else b[i - |a|]
  {
    a + b
  }

  function Transpose(m: Matrix): (t: Matrix)
    requires Square(m)
    ensures |t| == |m| && Square(t)
    ensures forall i, j :: 0 <= i < |m| && 0 <= j < |m| ==> t[i][j] == m[j][i]
  {
    seq(|m|, i requires 0 <= i < |m| => seq(|m|, j requires 0 <= j < |m| => m[j][i]))
  }

  /** Column j, read top to bottom. */
  function Column(m: Matrix, j: nat): (col: seq<int>)
    requires forall i :: 0 <= i < |m| ==> j < |m[i]|
    ensures |col| == |m|
    ensures forall i :: 0 <= i < |m| ==> col[i] == m[i][j]
  {
    seq(|m|, i requires 0 <= i < |m| => m[i][j])
  }

  /** Inner product of two vectors of equal length. */
  function Dot(u: seq<int>, v: seq<int>): int
    requires |u| == |v|
    decreases |u|
  {
    if |u| == 0 then 0 else u[0] * v[0] + Dot(u[1..], v[1..])
  }

  /** Matrix product of two square matrices of the same order. */
  function MatMul(a: Matrix, b: Matrix): (c: Matrix)
    requires Square(a) && Square(b) && |a| == |b|
    ensures |c| == |a| && Square(c)
    ensures forall i, j :: 0 <= i < |a| && 0 <= j < |a| ==> c[i][j] == Dot(a[i], Column(b, j))
  {
    seq(|a|, i requires 0 <= i < |a| => seq(|a|, j requires 0 <= j < |a| => Dot(a[i], Column(b, j))))
  }

  /** Product of a square matrix with a column vector. */
  function MatVec(m: Matrix, v: seq<int>): (w: seq<int>)
    requires Square(m) && |v| == |m|
    ensures |w| == |m|
    ensures forall i :: 0 <= i < |m| ==> w[i] == Dot(m[i], v)
  {
    seq(|m|, i requires 0 <= i < |m| => Dot(m[i], v))
  }

  /** A vector that is zero everywhere has inner product zero with anything. */
  lemma {:induction false} DotZero(u: seq<int>, v: seq<int>)
    requires |u| == |v|
    requires forall j :: 0 <= j < |u| ==> u[j] == 0
    ensures Dot(u, v) == 0
    decreases |u|
  {
    if |u| > 0 {
      DotZero(u[1..], v[1..]);
    }
  }

  /** A vector that is zero except at position k picks out entry k of the other vector. */
  lemma {:induction false} DotOneHot(u: seq<int>, v: seq<int>, k: nat)
    requires |u| == |v| && k < |u|
    requires forall j :: 0 <= j < |u| && j != k ==> u[j] == 0
    ensures Dot(u, v) == u[k] * v[k]
    decreases |u|
  {
    if k == 0 {
      DotZero(u[1..], v[1..]);
    } else {
      DotOneHot(u[1..], v[1..], k - 1);
    }
  }

  /** When row i of a is zero except at column k, entry (i, j) of a b is a[i][k] * b[k][j]. */
  lemma MatMulSparseRow(a: Matrix, b: Matrix, i: nat, j: nat, k: nat)
    requires Square(a) && Square(b) && |a| == |b|
    requires i < |a| && j < |a| && k < |a|
    requires forall c :: 0 <= c < |a| && c != k ==> a[i][c] == 0
    ensures MatMul(a, b)[i][j] == a[i][k] * b[k][j]
  {
    DotOneHot(a[i], Column(b, j), k);
  }

  lemma {:induction false} DotCommutes(u: seq<int>, v: seq<int>)
    requires |u| == |v|
    ensures Dot(u, v) == Dot(v, u)
    decreases |u|
  {
    if |u| > 0 {
      DotCommutes(u[1..], v[1..]);
    }
  }

  /** Two square matrices of the same order that agree entry by entry are equal. */
  lemma SquareExtensional(a: Matrix, b: Matrix)
    requires Square(a) && Square(b) && |a| == |b|
    requires forall i, j :: 0 <= i < |a| && 0 <= j < |a| ==> a[i][j] == b[i][j]
    ensures a == b
  {
    forall i | 0 <= i < |a|
      ensures a[i] == b[i]
    {
      assert |a[i]| == |b[i]|;
    }
  }
}
