/**
 * The value of a matrix: a row-major grid of reals, and the element-wise and
 * algebraic operations of the matrix type stated on such values.
 */
module Grids {
  import opened RealSums

  /** A row-major grid: grid[i][j] is the cell in row i, column j. */
  type Grid = seq<seq<real>>

  /** The column count, read off the first row (0 for a grid without rows). */
  function Cols(m: Grid): nat
  {
    if |m| == 0 then 0 else |m[0]|
  }

  /** m has r rows of c cells each. */
  predicate IsMatrix(m: Grid, r: nat, c: nat)
  {
    |m| == r && forall i :: 0 <= i < r ==> |m[i]| == c
  }

  /** All rows of m have the same length. */
  predicate IsRect(m: Grid)
  {
    IsMatrix(m, |m|, Cols(m))
  }

  /** A rectangular grid that has columns exactly when it has rows. */
  predicate IsProper(m: Grid)
  {
    IsRect(m) && (|m| == 0 <==> Cols(m) == 0)
  }

  lemma {:induction false} IsMatrixCols(m: Grid, r: nat, c: nat)
    requires IsMatrix(m, r, c) && (r == 0 ==> c == 0)
    ensures IsRect(m) && Cols(m) == c
  {
  }

  /** The tolerance of approximate equality, `Error_Rate` (1e-6) in the C++ class. */
  const ErrorRate: real := 0.000001

  function Abs(x: real): real
  {
    if x < 0.0 then -x else x
  }

  /** The r-by-c grid of zeros that a freshly allocated matrix holds. */
  function Zero(r: nat, c: nat): (z: Grid)
    ensures IsMatrix(z, r, c)
  {
    seq(r, i requires 0 <= i < r => seq(c, j requires 0 <= j < c => 0.0))
  }

  /**
   * The r-by-c grid whose overlap with m is m's top-left block
   * and whose other cells are 0.
   */
  function Resize(m: Grid, r: nat, c: nat): (z: Grid)
    requires IsRect(m)
    ensures IsMatrix(z, r, c)
  {
    seq(r, i requires 0 <= i < r =>
      seq(c, j requires 0 <= j < c => if i < |m| && j < Cols(m) then m[i][j] else 0.0))
  }

  /**
   * dst with its overlap with src overwritten by src's cells: copying the common
   * top-left block into existing storage.
   */
  function CopyOverlap(dst: Grid, src: Grid): (z: Grid)
    requires IsRect(dst) && IsRect(src)
    ensures IsMatrix(z, |dst|, Cols(dst))
  {
    seq(|dst|, i requires 0 <= i < |dst| =>
      seq(Cols(dst), j requires 0 <= j < Cols(dst) =>
        if i < |src| && j < Cols(src) then src[i][j] else dst[i][j]))
  }

  predicate SameShape(a: Grid, b: Grid)
  {
    IsRect(a) && IsRect(b) && |a| == |b| && Cols(a) == Cols(b)
  }

  function Add(a: Grid, b: Grid): (z: Grid)
    requires SameShape(a, b)
    ensures IsMatrix(z, |a|, Cols(a))
  {
    seq(|a|, i requires 0 <= i < |a| =>
      seq(Cols(a), j requires 0 <= j < Cols(a) => a[i][j] + b[i][j]))
  }

  function Sub(a: Grid, b: Grid): (z: Grid)
    requires SameShape(a, b)
    ensures IsMatrix(z, |a|, Cols(a))
  {
    seq(|a|, i requires 0 <= i < |a| =>
      seq(Cols(a), j requires 0 <= j < Cols(a) => a[i][j] - b[i][j]))
  }

  function Scale(a: Grid, k: real): (z: Grid)
    requires IsRect(a)
    ensures IsMatrix(z, |a|, Cols(a))
  {
    seq(|a|, i requires 0 <= i < |a| =>
      seq(Cols(a), j requires 0 <= j < Cols(a) => a[i][j] * k))
  }

  /** Products of row i of a with column j of b, in the order the C++ loop accumulates them. */
  function DotTerms(a: Grid, b: Grid, i: nat, j: nat): (t: seq<real>)
    requires IsRect(a) && IsRect(b) && Cols(a) == |b|
    requires i < |a| && j < Cols(b)
    ensures |t| == |b|
  {
    seq(|b|, k requires 0 <= k < |b| => a[i][k] * b[k][j])
  }

  predicate CanMultiply(a: Grid, b: Grid)
  {
    IsRect(a) && IsRect(b) && Cols(a) == |b|
  }

  /** The matrix product: cell (i, j) is the sum over k of a[i][k] * b[k][j]. */
  function Mul(a: Grid, b: Grid): (z: Grid)
    requires CanMultiply(a, b)
    ensures IsMatrix(z, |a|, Cols(b))
  {
    seq(|a|, i requires 0 <= i < |a| =>
      seq(Cols(b), j requires 0 <= j < Cols(b) => Sum(DotTerms(a, b, i, j))))
  }

  /** Cell (j, i) of the transpose is cell (i, j) of m. */
  function Transpose(m: Grid): (z: Grid)
    requires IsRect(m)
    ensures IsMatrix(z, Cols(m), |m|)
  {
    seq(Cols(m), j requires 0 <= j < Cols(m) =>
      seq(|m|, i requires 0 <= i < |m| => m[i][j]))
  }

  function Identity(n: nat): (z: Grid)
    ensures IsMatrix(z, n, n)
  {
    seq(n, i requires 0 <= i < n => seq(n, j requires 0 <= j < n => if i == j then 1.0 else 0.0))
  }

  /** m with rows p and q exchanged. */
  function Swapped(m: Grid, p: nat, q: nat): (z: Grid)
    requires p < |m| && q < |m|
    ensures |z| == |m|
  {
    m[p := m[q]][q := m[p]]
  }

  /**
   * Equality up to the tolerance: the same shape, and every pair of
   * corresponding cells at most ErrorRate apart.
   */
  predicate ApproxEqual(a: Grid, b: Grid)
    requires IsRect(a) && IsRect(b)
  {
    |a| == |b| && Cols(a) == Cols(b) &&
    forall i, j :: 0 <= i < |a| && 0 <= j < Cols(a) ==> Abs(a[i][j] - b[i][j]) <= ErrorRate
  }

  /** u - k * v, cell by cell: the row operation of Gaussian elimination. */
  function SubScaled(u: seq<real>, v: seq<real>, k: real): (w: seq<real>)
    requires |u| == |v|
    ensures |w| == |u|
  {
    seq(|u|, t requires 0 <= t < |u| => u[t] - k * v[t])
  }

  /** Two grids of one shape with the same cells are equal. */
  lemma {:induction false} GridEq(x: Grid, y: Grid, r: nat, c: nat)
    requires IsMatrix(x, r, c) && IsMatrix(y, r, c)
    requires forall i, j :: 0 <= i < r && 0 <= j < c ==> x[i][j] == y[i][j]
    ensures x == y
  {
    forall i | 0 <= i < r ensures x[i] == y[i] {
      assert |x[i]| == |y[i]| == c;
    }
  }

  // ---------------------------------------------------------------------------
  // Laws of the element-wise operations

  /** Every matrix is approximately equal to itself. */
  lemma {:induction false} ApproxEqualReflexive(a: Grid)
    requires IsRect(a)
    ensures ApproxEqual(a, a)
  {
    assert Abs(0.0) == 0.0;
  }

  lemma {:induction false} ApproxEqualSymmetric(a: Grid, b: Grid)
    requires IsRect(a) && IsRect(b)
    ensures ApproxEqual(a, b) ==> ApproxEqual(b, a)
  {
    if ApproxEqual(a, b) {
      forall i, j | 0 <= i < |b| && 0 <= j < Cols(b) ensures Abs(b[i][j] - a[i][j]) <= ErrorRate {
        assert Abs(b[i][j] - a[i][j]) == Abs(a[i][j] - b[i][j]);
      }
    }
  }

  /** The tolerance makes approximate equality intransitive. */
  lemma {:induction false} ApproxEqualNotTransitive()
    ensures ApproxEqual([[0.0]], [[ErrorRate]]) && ApproxEqual([[ErrorRate]], [[2.0 * ErrorRate]])
    ensures !ApproxEqual([[0.0]], [[2.0 * ErrorRate]])
  {
    var a, b := [[0.0]], [[2.0 * ErrorRate]];
    assert Abs(a[0][0] - b[0][0]) > ErrorRate;
  }

  /** Subtracting what was added gives back the original: (A + B) - B == A. */
  lemma {:induction false} SubAddCancel(a: Grid, b: Grid)
    requires SameShape(a, b)
    ensures Sub(Add(a, b), b) == a
  {
    var z := Sub(Add(a, b), b);
    assert |z| == |a|;
    forall i | 0 <= i < |a| ensures z[i] == a[i] {
      assert |z[i]| == |a[i]|;
    }
  }

  lemma {:induction false} AddCommutes(a: Grid, b: Grid)
    requires SameShape(a, b)
    ensures Add(a, b) == Add(b, a)
  {
    forall i | 0 <= i < |a| ensures Add(a, b)[i] == Add(b, a)[i] {
    }
  }

  /** Scaling distributes over addition: (A + B) * k == A * k + B * k. */
  lemma {:induction false} ScaleDistributes(a: Grid, b: Grid, k: real)
    requires SameShape(a, b)
    ensures Scale(Add(a, b), k) == Add(Scale(a, k), Scale(b, k))
  {
    var l := Scale(Add(a, b), k);
    var r := Add(Scale(a, k), Scale(b, k));
    forall i | 0 <= i < |a| ensures l[i] == r[i] {
      forall j | 0 <= j < Cols(a) ensures l[i][j] == r[i][j] {
        assert l[i][j] == (a[i][j] + b[i][j]) * k;
      }
    }
  }

  /** Transposing twice gives back the original matrix. */
  lemma {:induction false} TransposeInvolutive(m: Grid)
    requires IsProper(m)
    ensures Transpose(Transpose(m)) == m
  {
    var t := Transpose(m);
    assert Cols(t) == |m|;
    var tt := Transpose(t);
    assert |tt| == |m|;
    forall i | 0 <= i < |m| ensures tt[i] == m[i] {
      assert |tt[i]| == |m[i]|;
    }
  }

  /** Multiplying by the identity on the right changes nothing. */
  lemma {:induction false} MulIdentityRight(a: Grid)
    requires IsProper(a)
    ensures CanMultiply(a, Identity(Cols(a))) && Mul(a, Identity(Cols(a))) == a
  {
    var n := Cols(a);
    var id := Identity(n);
    assert IsRect(id) && Cols(id) == n by {
      if n > 0 { assert |id[0]| == n; }
    }
    var z := Mul(a, id);
    forall i | 0 <= i < |a| ensures z[i] == a[i] {
      forall j | 0 <= j < n ensures z[i][j] == a[i][j] {
        var t := DotTerms(a, id, i, j);
        SumSingle(t, j);
      }
    }
  }

  /** Multiplying by the identity on the left changes nothing. */
  lemma {:induction false} MulIdentityLeft(a: Grid)
    requires IsRect(a)
    ensures CanMultiply(Identity(|a|), a) && Mul(Identity(|a|), a) == a
  {
    var n := |a|;
    var id := Identity(n);
    assert IsRect(id) && Cols(id) == n by {
      if n > 0 { assert |id[0]| == n; }
    }
    var z := Mul(id, a);
    forall i | 0 <= i < n ensures z[i] == a[i] {
      forall j | 0 <= j < Cols(a) ensures z[i][j] == a[i][j] {
        var t := DotTerms(id, a, i, j);
        SumSingle(t, i);
      }
    }
  }

  /** Resizing to the current shape changes nothing. */
  lemma {:induction false} ResizeSameShape(m: Grid)
    requires IsRect(m)
    ensures Resize(m, |m|, Cols(m)) == m
  {
    var z := Resize(m, |m|, Cols(m));
    forall i | 0 <= i < |m| ensures z[i] == m[i] {
    }
  }

  /** Shrinking back after growing restores the original matrix. */
  lemma {:induction false} ResizeRoundTrip(m: Grid, r: nat, c: nat)
    requires IsProper(m) && |m| <= r && Cols(m) <= c
    ensures Resize(Resize(m, r, c), |m|, Cols(m)) == m
  {
    var g := Resize(m, r, c);
    assert IsRect(g) && (r > 0 ==> Cols(g) == c);
    var z := Resize(g, |m|, Cols(m));
    forall i | 0 <= i < |m| ensures z[i] == m[i] {
    }
  }

  /** Copying m into zero storage of a new shape is resizing m to that shape. */
  lemma {:induction false} CopyOverlapOfZero(m: Grid, r: nat, c: nat)
    requires IsRect(m) && (r == 0 ==> c == 0)
    ensures IsRect(Zero(r, c)) && CopyOverlap(Zero(r, c), m) == Resize(m, r, c)
  {
    IsMatrixCols(Zero(r, c), r, c);
    var l := CopyOverlap(Zero(r, c), m);
    forall i | 0 <= i < r ensures l[i] == Resize(m, r, c)[i] {
    }
  }

  /** Copying m into zero storage of its own shape reproduces m: what the copy constructor does. */
  lemma {:induction false} CopyIntoZero(m: Grid)
    requires IsProper(m)
    ensures IsRect(Zero(|m|, Cols(m))) && CopyOverlap(Zero(|m|, Cols(m)), m) == m
  {
    CopyOverlapOfZero(m, |m|, Cols(m));
    ResizeSameShape(m);
  }

  /** Copying between grids of the same shape overwrites every cell. */
  lemma {:induction false} CopyOverlapSameShape(dst: Grid, src: Grid)
    requires SameShape(dst, src)
    ensures CopyOverlap(dst, src) == src
  {
    GridEq(CopyOverlap(dst, src), src, |src|, Cols(src));
  }

  /** The first k products of row i of a and column j of b, summed: the running total of the product loop. */
  function PartialDot(a: Grid, b: Grid, i: nat, j: nat, k: nat): real
    requires CanMultiply(a, b) && i < |a| && j < Cols(b) && k <= |b|
  {
    Sum(DotTerms(a, b, i, j)[..k])
  }

  /** Accumulating one more product of row i and column j, as the multiplication loop does. */
  lemma {:induction false} PartialDotStep(a: Grid, b: Grid, i: nat, j: nat, k: nat)
    requires CanMultiply(a, b) && i < |a| && j < Cols(b) && k < |b|
    ensures PartialDot(a, b, i, j, k + 1) == PartialDot(a, b, i, j, k) + a[i][k] * b[k][j]
  {
    SumPrefixStep(DotTerms(a, b, i, j), k);
  }

  /** Once every product is in, the running total is the cell of the product. */
  lemma {:induction false} PartialDotFull(a: Grid, b: Grid, i: nat, j: nat)
    requires CanMultiply(a, b) && i < |a| && j < Cols(b)
    ensures PartialDot(a, b, i, j, |b|) == Mul(a, b)[i][j]
  {
    assert DotTerms(a, b, i, j)[..|b|] == DotTerms(a, b, i, j);
  }

  /** The products of two rows of one length, cell by cell. */
  function RowProducts(u: seq<real>, v: seq<real>): (t: seq<real>)
    requires |u| == |v|
    ensures |t| == |u|
  {
    seq(|u|, j requires 0 <= j < |u| => u[j] * v[j])
  }

  lemma {:induction false} ScaledProduct(x: real, y: real, f: real, t: real)
    requires t == x * (y * f)
    ensures t == f * (x * y)
  {
  }

  /**
   * Cell (i, k) of a times the transpose of c scaled by f is f times the products
   * of row i of a with row k of c.
   */
  lemma {:induction false} DotScaledTranspose(a: Grid, c: Grid, n: nat, f: real, i: nat, k: nat)
    requires IsMatrix(a, n, n) && IsMatrix(c, n, n) && i < n && k < n
    ensures CanMultiply(a, Scale(Transpose(c), f))
    ensures Sum(DotTerms(a, Scale(Transpose(c), f), i, k)) == f * Sum(RowProducts(a[i], c[k]))
  {
    IsMatrixCols(a, n, n);
    IsMatrixCols(c, n, n);
    IsMatrixCols(Transpose(c), n, n);
    var z := Scale(Transpose(c), f);
    IsMatrixCols(z, n, n);
    var d, x := DotTerms(a, z, i, k), RowProducts(a[i], c[k]);
    forall j | 0 <= j < n ensures d[j] == f * x[j] {
      assert z[j][k] == c[k][j] * f;
      ScaledProduct(a[i][j], c[k][j], f, d[j]);
    }
    SumScale(d, x, f);
  }

  /** Growing the 2x2 matrix [[1,2],[3,4]] to 3x3 keeps it top-left and pads with zeros. */
  lemma {:induction false} ResizeExample()
    ensures IsRect([[1.0, 2.0], [3.0, 4.0]])
    ensures Resize([[1.0, 2.0], [3.0, 4.0]], 3, 3) == [[1.0, 2.0, 0.0], [3.0, 4.0, 0.0], [0.0, 0.0, 0.0]]
    ensures Resize([[1.0, 2.0], [3.0, 4.0]], 3, 2) == [[1.0, 2.0], [3.0, 4.0], [0.0, 0.0]]
  {
    var m := [[1.0, 2.0], [3.0, 4.0]];
    var z := Resize(m, 3, 3);
    assert z[0] == [1.0, 2.0, 0.0];
    assert z[1] == [3.0, 4.0, 0.0];
    assert z[2] == [0.0, 0.0, 0.0];
    var y := Resize(m, 3, 2);
    assert y[0] == [1.0, 2.0];
    assert y[1] == [3.0, 4.0];
    assert y[2] == [0.0, 0.0];
  }
}
