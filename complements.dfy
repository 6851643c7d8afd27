/**
 * The matrix of algebraic complements that `CalcComplements` builds and the inverse
 * that `InverseMatrix` derives from it (the transposed complements scaled by
 * 1 / det), stated on values, with the theorem that makes the inverse an inverse:
 * A * Inverse(A) == I whenever det A != 0.
 */
module Complements {
  import opened RealSums
  import opened Grids
  import opened Determinants

  /** Cell (i, j) is the signed minor (-1)^(i+j) * det(minor (i, j)). */
  function Cofactors(a: Grid): (c: Grid)
    requires IsSquare(a)
    ensures IsSquare(c) && |c| == |a|
  {
    seq(|a|, i requires 0 <= i < |a| => seq(|a|, j requires 0 <= j < |a| => Cofactor(a, i, j)))
  }

  /** The transposed complements scaled by 1 / det(a), as InverseMatrix computes them. */
  function Inverse(a: Grid): (z: Grid)
    requires IsSquare(a) && Det(a) != 0.0
    ensures IsSquare(z) && |z| == |a|
  {
    var c := Cofactors(a);
    assert IsMatrix(c, |a|, |a|);
    IsMatrixCols(c, |a|, |a|);
    IsMatrixCols(Transpose(c), |a|, |a|);
    Scale(Transpose(c), 1.0 / Det(a))
  }

  /** Row i of a against the complements of row k. */
  function CrossTerms(a: Grid, i: nat, k: nat): (t: seq<real>)
    requires IsSquare(a) && i < |a| && k < |a|
    ensures |t| == |a|
  {
    RowProducts(a[i], Cofactors(a)[k])
  }

  /** Replacing row k changes no cofactor of row k, since minor (k, j) leaves row k out. */
  lemma {:induction false} MinorRowIgnored(a: Grid, k: nat, x: seq<real>, j: nat)
    requires IsSquare(a) && k < |a| && j < |a| && |x| == |a|
    ensures IsSquare(a[k := x]) && Minor(a[k := x], k, j) == Minor(a, k, j)
  {
    var b := a[k := x];
    var p, q := Minor(b, k, j), Minor(a, k, j);
    forall r, c | 0 <= r < |a| - 1 && 0 <= c < |a| - 1 ensures p[r][c] == q[r][c] {
      assert b[Skip(k, r)] == a[Skip(k, r)];
    }
    GridEq(p, q, |a| - 1, |a| - 1);
  }

  lemma {:induction false} CofactorRowIgnored(a: Grid, k: nat, x: seq<real>, j: nat)
    requires IsSquare(a) && k < |a| && j < |a| && |x| == |a|
    ensures IsSquare(a[k := x]) && Cofactor(a[k := x], k, j) == Cofactor(a, k, j)
  {
    MinorRowIgnored(a, k, x, j);
  }

  /**
   * Expanding along row k with row i's cells in place of row k's: the determinant
   * with both rows equal to row i, which is 0 for i != k and det(a) for i == k.
   */
  lemma {:induction false} CrossExpansion(a: Grid, i: nat, k: nat)
    requires IsSquare(a) && i < |a| && k < |a|
    ensures Sum(CrossTerms(a, i, k)) == if i == k then Det(a) else 0.0
  {
    var b := a[k := a[i]];
    forall j | 0 <= j < |a| ensures CrossTerms(a, i, k)[j] == RowTerms(b, k)[j] {
      CofactorRowIgnored(a, k, a[i], j);
    }
    assert CrossTerms(a, i, k) == RowTerms(b, k);
    DetExpandRow(b, k);
    if i == k {
      assert b == a;
    } else {
      DetEqualRows(b, i, k);
    }
  }

  /** Cell (j, k) of the inverse: complement (k, j) over the determinant. */
  lemma {:induction false} InverseCell(a: Grid, j: nat, k: nat)
    requires IsSquare(a) && Det(a) != 0.0 && j < |a| && k < |a|
    ensures Inverse(a)[j][k] == Cofactor(a, k, j) * (1.0 / Det(a))
  {
    var c := Cofactors(a);
    assert IsMatrix(c, |a|, |a|);
    IsMatrixCols(c, |a|, |a|);
    assert Transpose(c)[j][k] == c[k][j];
  }

  /** Terms of cell (i, k) of a * Inverse(a) are the cross terms scaled by 1 / det. */
  lemma {:induction false} ProductTerms(a: Grid, i: nat, k: nat)
    requires IsSquare(a) && Det(a) != 0.0 && i < |a| && k < |a|
    ensures CanMultiply(a, Inverse(a))
    ensures Sum(DotTerms(a, Inverse(a), i, k)) == (1.0 / Det(a)) * Sum(CrossTerms(a, i, k))
  {
    DotScaledTranspose(a, Cofactors(a), |a|, 1.0 / Det(a), i, k);
  }

  /** Cell (i, k) of a * Inverse(a) is 1 on the diagonal and 0 elsewhere. */
  lemma {:induction false} ProductCell(a: Grid, i: nat, k: nat)
    requires IsSquare(a) && Det(a) != 0.0 && i < |a| && k < |a|
    ensures CanMultiply(a, Inverse(a))
    ensures Sum(DotTerms(a, Inverse(a), i, k)) == if i == k then 1.0 else 0.0
  {
    ProductTerms(a, i, k);
    CrossExpansion(a, i, k);
  }

  /** The inverse is a right inverse: a * Inverse(a) is the identity when det(a) != 0. */
  lemma {:induction false} InverseRight(a: Grid)
    requires IsSquare(a) && Det(a) != 0.0
    ensures CanMultiply(a, Inverse(a)) && Mul(a, Inverse(a)) == Identity(|a|)
  {
    var z := Inverse(a);
    IsMatrixCols(a, |a|, |a|);
    IsMatrixCols(z, |a|, |a|);
    var p, id := Mul(a, z), Identity(|a|);
    forall i, k | 0 <= i < |a| && 0 <= k < |a| ensures p[i][k] == id[i][k] {
      ProductCell(a, i, k);
    }
    GridEq(p, id, |a|, |a|);
  }

  /** A minor of a 2-by-2 matrix is the 1-by-1 matrix of the opposite cell. */
  lemma {:induction false} MinorOfTwo(a: Grid, i: nat, j: nat)
    requires IsSquare(a) && |a| == 2 && i < 2 && j < 2
    ensures Minor(a, i, j) == [[a[1 - i][1 - j]]]
  {
    var m := Minor(a, i, j);
    assert Skip(i, 0) == 1 - i && Skip(j, 0) == 1 - j;
    assert m[0][0] == a[1 - i][1 - j];
    assert m[0] == [a[1 - i][1 - j]];
  }

  /** The inverse of [[1,2],[3,4]] is [[-2,1],[1.5,-0.5]]. */
  lemma {:induction false} InverseExample()
    ensures IsSquare([[1.0, 2.0], [3.0, 4.0]]) && Det([[1.0, 2.0], [3.0, 4.0]]) == -2.0
    ensures Inverse([[1.0, 2.0], [3.0, 4.0]]) == [[-2.0, 1.0], [1.5, -0.5]]
  {
    var a := [[1.0, 2.0], [3.0, 4.0]];
    var z := [[-2.0, 1.0], [1.5, -0.5]];
    DetExample();
    forall j, k | 0 <= j < 2 && 0 <= k < 2 ensures Inverse(a)[j][k] == z[j][k] {
      MinorOfTwo(a, k, j);
      DetSingle(a[1 - k][1 - j]);
      InverseCell(a, j, k);
    }
    GridEq(Inverse(a), z, 2, 2);
  }
}
