/**
 The phase-space matrices shared by the Gaussian backends: the symplectic
 form of order n and the change of basis between the grouped ordering
 (x_1, ..., x_n, p_1, ..., p_n) and the interleaved ordering
 (x_1, p_1, ..., x_n, p_n) of a 2n-dimensional phase-space vector.
 */
module SharedOps {

  import opened Matrices

  // ---------------------------------------------------------------------
  // Symplectic form
  // ---------------------------------------------------------------------

  /** Entry (i, j) of the symplectic form of order n, given by its index. */
  function SympEntry(n: nat, i: nat, j: nat): int
  {
    if i < n && j == i + n then 1
    else if n <= i && j + n == i then -1
    else 0
  }

  /**
   The symplectic form of order n, assembled as the source does it: the
   block matrix [[0, I], [-I, 0]] built from the n-by-n identity by
   concatenating blocks side by side and then top to bottom.
   */
  function Sympmat(n: nat): (omega: Matrix)
    ensures |omega| == 2 * n && Square(omega)
    ensures n == 0 ==> omega == []
    ensures forall i, j :: 0 <= i < 2 * n && 0 <= j < 2 * n ==> omega[i][j] == SympEntry(n, i, j)
  {
    var idm := Identity(n);
    var top := HConcat(Scale(0, idm), idm);
    var bottom := HConcat(Negate(idm), Scale(0, idm));
    VConcat(top, bottom)
  }

  /** omega is a 2n-by-2n matrix whose entries follow the index formula of the symplectic form. */
  ghost predicate HasSympEntries(omega: Matrix, n: nat)
  {
    && |omega| == 2 * n && Square(omega)
    && forall i, j :: 0 <= i < 2 * n && 0 <= j < 2 * n ==> omega[i][j] == SympEntry(n, i, j)
  }

  /** Entry (i, j) of the square of the symplectic form is minus the Kronecker delta. */
  lemma SympSquareEntry(omega: Matrix, n: nat, i: nat, j: nat)
    requires HasSympEntries(omega, n)
    requires i < 2 * n && j < 2 * n
    ensures MatMul(omega, omega)[i][j] == if i == j then -1 else 0
  {
    var k := if i < n then i + n else i - n;
    assert forall c :: 0 <= c < 2 * n && c != k ==> omega[i][c] == 0;
    MatMulSparseRow(omega, omega, i, j, k);
    assert omega[i][k] == if i < n then 1 else -1;
    assert omega[k][j] == SympEntry(n, k, j);
  }

  /** The symplectic form is skew-symmetric: its transpose is its negation. */
  lemma SympmatSkewSymmetric(n: nat)
    ensures Transpose(Sympmat(n)) == Negate(Sympmat(n))
  {
    var omega := Sympmat(n);
    SquareExtensional(Transpose(omega), Negate(omega));
  }

  /** The symplectic form squares to minus the identity of order 2n. */
  lemma SympmatSquaresToMinusIdentity(n: nat)
    ensures MatMul(Sympmat(n), Sympmat(n)) == Negate(Identity(2 * n))
  {
    var omega := Sympmat(n);
    assert HasSympEntries(omega, n);
    var sq := MatMul(omega, omega);
    var minusId := Negate(Identity(2 * n));
    forall i, j | 0 <= i < 2 * n && 0 <= j < 2 * n
      ensures sq[i][j] == minusId[i][j]
    {
      SympSquareEntry(omega, n, i, j);
    }
    SquareExtensional(sq, minusId);
  }

  /** The symplectic form of order 1 is [[0, 1], [-1, 0]]. */
  lemma SympmatOrderOne()
    ensures Sympmat(1) == [[0, 1], [-1, 0]]
  {
    var omega := Sympmat(1);
    assert omega[0] == [0, 1];
    assert omega[1] == [-1, 0];
  }

  // ---------------------------------------------------------------------
  // Change of basis between the two orderings
  // ---------------------------------------------------------------------

  /**
   Position, in the grouped ordering, of the coordinate that sits at
   position r of the interleaved ordering: x_k for r = 2k, p_k for r = 2k + 1.
   */
  function GroupedIndex(n: nat, r: nat): nat
  {
    if r % 2 == 0 then r / 2 else n + r / 2
  }

  /** Position, in the interleaved ordering, of grouped coordinate g. */
  function InterleavedIndex(n: nat, g: nat): nat
  {
    if g < n then 2 * g else 2 * (g - n) + 1
  }

  /** The two index maps are inverse bijections between [0, 2n) and itself. */
  lemma IndexMapsInverse(n: nat)
    ensures forall r :: 0 <= r < 2 * n ==>
      GroupedIndex(n, r) < 2 * n && InterleavedIndex(n, GroupedIndex(n, r)) == r
    ensures forall g :: 0 <= g < 2 * n ==>
      InterleavedIndex(n, g) < 2 * n && GroupedIndex(n, InterleavedIndex(n, g)) == g
  {
  }

  /** A row of length d that is zero except for a 1 at position k. */
  function UnitRow(d: nat, k: nat): seq<int>
  {
    seq(d, c => if c == k then 1 else 0)
  }

  /**
   The change-of-basis matrix of order n: row r is zero except for a 1 in
   the column of the grouped coordinate that moves to interleaved position r.
   */
  function ChangeBasisMatrix(n: nat): (m: Matrix)
    ensures |m| == 2 * n && Square(m)
    ensures n == 0 ==> m == []
    ensures forall i :: 0 <= i < n ==> m[2 * i][i] == 1 && m[2 * i + 1][i + n] == 1
    ensures forall r, c :: 0 <= r < 2 * n && 0 <= c < 2 * n && m[r][c] != 0 ==>
      (c < n && r == 2 * c) || (n <= c && r == 2 * (c - n) + 1)
  {
    seq(2 * n, r requires 0 <= r < 2 * n => UnitRow(2 * n, GroupedIndex(n, r)))
  }

  /**
   Builds the change-of-basis matrix of order n the way the source does:
   a 2n-by-2n matrix of zeros in which, for every mode i, the entries
   (2i, i) and (2i + 1, i + n) are set to 1.
   */
  method ChangeBasis(n: nat) returns (m: array2<int>)
    ensures m.Length0 == 2 * n && m.Length1 == 2 * n
    ensures forall r, c :: 0 <= r < 2 * n && 0 <= c < 2 * n ==> m[r, c] == ChangeBasisMatrix(n)[r][c]
  {
    m := new int[2 * n, 2 * n]((r, c) => 0);
    for i := 0 to n
      invariant forall r, c :: 0 <= r < 2 * n && 0 <= c < 2 * n ==>
        m[r, c] == if r < 2 * i && c == GroupedIndex(n, r) then 1 else 0
    {
      assert GroupedIndex(n, 2 * i) == i && GroupedIndex(n, 2 * i + 1) == n + i;
      m[2 * i, i] := 1;
      m[2 * i + 1, i + n] := 1;
    }
    forall r | 0 <= r < 2 * n
      ensures ChangeBasisMatrix(n)[r] == UnitRow(2 * n, GroupedIndex(n, r))
    {
    }
  }

  /** A vector with a 1 at position k and zeros elsewhere. */
  ghost predicate IsUnitAt(v: seq<int>, k: int)
  {
    0 <= k < |v| && v[k] == 1 && forall j :: 0 <= j < |v| && j != k ==> v[j] == 0
  }

  /** A vector holding exactly one 1, with zeros everywhere else. */
  ghost predicate IsUnitVector(v: seq<int>)
  {
    exists k :: IsUnitAt(v, k)
  }

  /** Every row and every column holds exactly one 1 and is zero elsewhere. */
  ghost predicate IsPermutationMatrix(m: Matrix)
    requires Square(m)
  {
    && (forall r :: 0 <= r < |m| ==> IsUnitVector(m[r]))
    && (forall c :: 0 <= c < |m| ==> IsUnitVector(Column(m, c)))
  }

  /**
   m is a 2n-by-2n matrix whose row r is the unit vector at the grouped
   index of interleaved position r.
   */
  ghost predicate HasChangeBasisRows(m: Matrix, n: nat)
  {
    && |m| == 2 * n && Square(m)
    && forall r :: 0 <= r < 2 * n ==> IsUnitAt(m[r], GroupedIndex(n, r))
  }

  lemma ChangeBasisMatrixRows(n: nat)
    ensures HasChangeBasisRows(ChangeBasisMatrix(n), n)
  {
  }

  /** Column g of such a matrix is the unit vector at the interleaved index of g. */
  lemma ChangeBasisColumn(m: Matrix, n: nat, g: nat)
    requires HasChangeBasisRows(m, n) && g < 2 * n
    ensures IsUnitAt(Column(m, g), InterleavedIndex(n, g))
  {
    IndexMapsInverse(n);
  }

  /** A matrix whose rows are these unit vectors is a permutation matrix. */
  lemma ChangeBasisRowsPermutation(m: Matrix, n: nat)
    requires HasChangeBasisRows(m, n)
    ensures IsPermutationMatrix(m)
  {
    forall r | 0 <= r < 2 * n
      ensures IsUnitVector(m[r])
    {
      assert IsUnitAt(m[r], GroupedIndex(n, r));
    }
    forall c | 0 <= c < 2 * n
      ensures IsUnitVector(Column(m, c))
    {
      ChangeBasisColumn(m, n, c);
    }
  }

  /** The change-of-basis matrix is a permutation matrix. */
  lemma ChangeBasisIsPermutation(n: nat)
    ensures IsPermutationMatrix(ChangeBasisMatrix(n))
  {
    ChangeBasisMatrixRows(n);
    ChangeBasisRowsPermutation(ChangeBasisMatrix(n), n);
  }

  /** The change-of-basis matrix is orthogonal: its product with its transpose is the identity. */
  lemma ChangeBasisOrthogonal(n: nat)
    ensures MatMul(ChangeBasisMatrix(n), Transpose(ChangeBasisMatrix(n))) == Identity(2 * n)
  {
    var m := ChangeBasisMatrix(n);
    ChangeBasisMatrixRows(n);
    var p := MatMul(m, Transpose(m));
    IndexMapsInverse(n);
    forall r, s | 0 <= r < 2 * n && 0 <= s < 2 * n
      ensures p[r][s] == Identity(2 * n)[r][s]
    {
      assert IsUnitAt(m[r], GroupedIndex(n, r));
      assert Column(Transpose(m), s) == m[s];
      DotOneHot(m[r], m[s], GroupedIndex(n, r));
    }
    SquareExtensional(p, Identity(2 * n));
  }

  /**
   The transpose of a matrix with the change-of-basis rows is its left
   inverse: m^T m is the identity.
   */
  lemma ChangeBasisRowsLeftInverse(m: Matrix, n: nat)
    requires HasChangeBasisRows(m, n)
    ensures MatMul(Transpose(m), m) == Identity(2 * n)
  {
    var p := MatMul(Transpose(m), m);
    IndexMapsInverse(n);
    forall r, s | 0 <= r < 2 * n && 0 <= s < 2 * n
      ensures p[r][s] == Identity(2 * n)[r][s]
    {
      var k := InterleavedIndex(n, r);
      ChangeBasisColumn(m, n, r);
      assert Transpose(m)[r] == Column(m, r);
      DotOneHot(Column(m, r), Column(m, s), k);
      assert IsUnitAt(m[k], GroupedIndex(n, k));
    }
    SquareExtensional(p, Identity(2 * n));
  }

  /**
   The transpose of the change-of-basis matrix undoes it: m^T m is the
   identity, so m^T converts interleaved order back to grouped order.
   */
  lemma ChangeBasisTransposeInverts(n: nat)
    ensures MatMul(Transpose(ChangeBasisMatrix(n)), ChangeBasisMatrix(n)) == Identity(2 * n)
  {
    ChangeBasisMatrixRows(n);
    ChangeBasisRowsLeftInverse(ChangeBasisMatrix(n), n);
  }

  /** The interleaving (x_1, p_1, ..., x_n, p_n) of positions xs and momenta ps. */
  function Interleave(xs: seq<int>, ps: seq<int>): (v: seq<int>)
    requires |xs| == |ps|
    ensures |v| == 2 * |xs|
    decreases |xs|
  {
    if |xs| == 0 then [] else [xs[0], ps[0]] + Interleave(xs[1..], ps[1..])
  }

  /** Even positions of an interleaving hold positions, odd ones momenta. */
  lemma {:induction false} InterleaveAt(xs: seq<int>, ps: seq<int>, r: nat)
    requires |xs| == |ps| && r < 2 * |xs|
    ensures Interleave(xs, ps)[r] == if r % 2 == 0 then xs[r / 2] else ps[r / 2]
    decreases |xs|
  {
    if r >= 2 {
      InterleaveAt(xs[1..], ps[1..], r - 2);
    }
  }

  /** A matrix with the change-of-basis rows maps xs ++ ps to the interleaving of xs and ps. */
  lemma ChangeBasisRowsInterleave(m: Matrix, xs: seq<int>, ps: seq<int>)
    requires |xs| == |ps| && HasChangeBasisRows(m, |xs|)
    ensures forall r :: 0 <= r < 2 * |xs| ==> MatVec(m, xs + ps)[r] == Interleave(xs, ps)[r]
  {
    var n := |xs|;
    var w := MatVec(m, xs + ps);
    forall r | 0 <= r < 2 * n
      ensures w[r] == Interleave(xs, ps)[r]
    {
      var g := GroupedIndex(n, r);
      assert IsUnitAt(m[r], g);
      DotOneHot(m[r], xs + ps, g);
      InterleaveAt(xs, ps, r);
      assert (xs + ps)[g] == if r % 2 == 0 then xs[r / 2] else ps[r / 2];
    }
  }

  /**
   Applied to a phase-space vector in grouped order xs ++ ps, the
   change-of-basis matrix yields the same vector in interleaved order.
   */
  lemma ChangeBasisInterleaves(xs: seq<int>, ps: seq<int>)
    requires |xs| == |ps|
    ensures var v := MatVec(ChangeBasisMatrix(|xs|), xs + ps);
      |v| == 2 * |xs| && forall r :: 0 <= r < |v| ==> v[r] == Interleave(xs, ps)[r]
  {
    ChangeBasisMatrixRows(|xs|);
    ChangeBasisRowsInterleave(ChangeBasisMatrix(|xs|), xs, ps);
  }

  /** Conjugation by a matrix with the change-of-basis rows permutes rows and columns alike. */
  lemma ChangeBasisRowsReorder(m: Matrix, n: nat, v: Matrix)
    requires HasChangeBasisRows(m, n) && Square(v) && |v| == 2 * n
    ensures forall r, s :: 0 <= r < 2 * n && 0 <= s < 2 * n ==>
      MatMul(MatMul(m, v), Transpose(m))[r][s] == v[GroupedIndex(n, r)][GroupedIndex(n, s)]
  {
    var mv := MatMul(m, v);
    var mvmt := MatMul(mv, Transpose(m));
    IndexMapsInverse(n);
    forall r, j | 0 <= r < 2 * n && 0 <= j < 2 * n
      ensures mv[r][j] == v[GroupedIndex(n, r)][j]
    {
      assert IsUnitAt(m[r], GroupedIndex(n, r));
      DotOneHot(m[r], Column(v, j), GroupedIndex(n, r));
    }
    forall r, s | 0 <= r < 2 * n && 0 <= s < 2 * n
      ensures mvmt[r][s] == v[GroupedIndex(n, r)][GroupedIndex(n, s)]
    {
      assert IsUnitAt(m[s], GroupedIndex(n, s));
      assert Column(Transpose(m), s) == m[s];
      DotCommutes(mv[r], m[s]);
      DotOneHot(m[s], mv[r], GroupedIndex(n, s));
    }
  }

  /**
   Conjugating a 2n-by-2n covariance matrix v by the change of basis,
   m v m^T, reorders both its rows and its columns from grouped to
   interleaved order.
   */
  lemma ChangeBasisReordersCovariance(n: nat, v: Matrix)
    requires Square(v) && |v| == 2 * n
    ensures var m := ChangeBasisMatrix(n);
      forall r, s :: 0 <= r < 2 * n && 0 <= s < 2 * n ==>
        MatMul(MatMul(m, v), Transpose(m))[r][s] == v[GroupedIndex(n, r)][GroupedIndex(n, s)]
  {
    ChangeBasisMatrixRows(n);
    ChangeBasisRowsReorder(ChangeBasisMatrix(n), n, v);
  }

  /** The symplectic entry formula read at interleaved positions. */
  lemma SympEntryInterleaved(n: nat, r: nat, s: nat)
    requires r < 2 * n && s < 2 * n
    ensures SympEntry(n, GroupedIndex(n, r), GroupedIndex(n, s)) ==
      if r % 2 == 0 && s == r + 1 then 1 else if r % 2 == 1 && s + 1 == r then -1 else 0
  {
  }

  /** The interleaved reordering of any matrix with the symplectic entries is block diagonal. */
  lemma SympEntriesInterleaved(m: Matrix, omega: Matrix, n: nat)
    requires HasChangeBasisRows(m, n) && HasSympEntries(omega, n)
    ensures forall r, s :: 0 <= r < 2 * n && 0 <= s < 2 * n ==>
      MatMul(MatMul(m, omega), Transpose(m))[r][s] ==
        if r % 2 == 0 && s == r + 1 then 1 else if r % 2 == 1 && s + 1 == r then -1 else 0
  {
    ChangeBasisRowsReorder(m, n, omega);
    IndexMapsInverse(n);
    forall r, s | 0 <= r < 2 * n && 0 <= s < 2 * n {
      SympEntryInterleaved(n, r, s);
    }
  }

  /**
   In interleaved order the symplectic form is block diagonal with one
   block [[0, 1], [-1, 0]] per mode: m omega m^T has a 1 at (2k, 2k + 1),
   a -1 at (2k + 1, 2k) and zeros everywhere else.
   */
  lemma SympmatInInterleavedOrder(n: nat)
    ensures var m := ChangeBasisMatrix(n);
      forall r, s :: 0 <= r < 2 * n && 0 <= s < 2 * n ==>
        MatMul(MatMul(m, Sympmat(n)), Transpose(m))[r][s] ==
          if r % 2 == 0 && s == r + 1 then 1 else if r % 2 == 1 && s + 1 == r then -1 else 0
  {
    ChangeBasisMatrixRows(n);
    assert HasSympEntries(Sympmat(n), n);
    SympEntriesInterleaved(ChangeBasisMatrix(n), Sympmat(n), n);
  }

  /** For two modes the 1s sit at (0, 0), (1, 2), (2, 1) and (3, 3). */
  lemma ChangeBasisOrderTwo()
    ensures ChangeBasisMatrix(2) == [[1, 0, 0, 0], [0, 0, 1, 0], [0, 1, 0, 0], [0, 0, 0, 1]]
  {
    var m := ChangeBasisMatrix(2);
    assert m[0] == [1, 0, 0, 0];
    assert m[1] == [0, 0, 1, 0];
    assert m[2] == [0, 1, 0, 0];
    assert m[3] == [0, 0, 0, 1];
  }
}
