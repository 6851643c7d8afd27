/**
 * The determinant as the textbook defines it: cofactor (Laplace) expansion along
 * the first row, through the minors that `MinorMatrixDet` builds.
 * The laws proved here (row swaps negate it, row replacements keep it, a zero
 * column makes it 0) are what the elimination in `Determinant` relies on.
 */
module Determinants {
  import opened RealSums
  import opened Grids

  predicate IsSquare(a: Grid)
  {
    IsMatrix(a, |a|, |a|)
  }

  /** (-1)^k, `pow(-1.0, k)` in the C++ class. */
  function Sign(k: nat): real
  {
    if k % 2 == 0 then 1.0 else -1.0
  }

  /** The k-th index that remains once index `gone` has been deleted. */
  function Skip(gone: nat, k: nat): nat
  {
    if k < gone then k else k + 1
  }

  /** a with row i and column j deleted. */
  function Minor(a: Grid, i: nat, j: nat): (m: Grid)
    requires IsSquare(a) && i < |a| && j < |a|
    ensures IsSquare(m) && |m| == |a| - 1
  {
    seq(|a| - 1, r requires 0 <= r < |a| - 1 =>
      seq(|a| - 1, c requires 0 <= c < |a| - 1 => a[Skip(i, r)][Skip(j, c)]))
  }

  /** The determinant, by expansion along row 0 (1 for the empty matrix). */
  function Det(a: Grid): real
    requires IsSquare(a)
    decreases |a|, 2
  {
    if |a| == 0 then 1.0 else Sum(Terms(a))
  }

  /** The terms a[0][j] * cofactor(0, j) of the expansion along row 0. */
  function Terms(a: Grid): (t: seq<real>)
    requires IsSquare(a) && 0 < |a|
    ensures |t| == |a|
    decreases |a|, 1
  {
    seq(|a|, j requires 0 <= j < |a| => a[0][j] * LeadCofactor(a, j))
  }

  /** The cofactor of cell (0, j): det(minor(0, j)) * (-1)^j. */
  function LeadCofactor(a: Grid, j: nat): real
    requires IsSquare(a) && j < |a|
    decreases |a|, 0
  {
    Det(Minor(a, 0, j)) * Sign(j)
  }

  /** Term j of the expansion along row 0. */
  lemma {:induction false} TermUnfold(a: Grid, j: nat)
    requires IsSquare(a) && j < |a|
    ensures Terms(a)[j] == a[0][j] * LeadCofactor(a, j)
  {
  }

  lemma {:induction false} LeadCofactorUnfold(a: Grid, j: nat)
    requires IsSquare(a) && j < |a|
    ensures LeadCofactor(a, j) == Det(Minor(a, 0, j)) * Sign(j)
  {
  }

  /** The signed minor (algebraic complement): the minor's determinant times (-1)^(i+j). */
  function Cofactor(a: Grid, i: nat, j: nat): real
    requires IsSquare(a) && i < |a| && j < |a|
  {
    Det(Minor(a, i, j)) * Sign(i + j)
  }

  /** The cells of row u other than the one in column j. */
  function DropAt(u: seq<real>, j: nat): (d: seq<real>)
    requires j < |u|
    ensures |d| == |u| - 1
  {
    seq(|u| - 1, c requires 0 <= c < |u| - 1 => u[Skip(j, c)])
  }

  /** The arithmetic step of the linearity proofs. */
  lemma {:induction false} Distribute(p: real, x: real, y: real, k: real, s: real)
    ensures p * ((x - k * y) * s) == p * (x * s) - k * (p * (y * s))
  {
  }

  lemma {:induction false} SignStep(k: nat)
    ensures Sign(k + 1) == -Sign(k)
  {
  }

  lemma {:induction false} SignAdd(i: nat, j: nat)
    ensures Sign(i + j) == Sign(i) * Sign(j)
  {
  }

  lemma {:induction false} SwappedSquare(a: Grid, p: nat, q: nat)
    requires IsSquare(a) && p < |a| && q < |a|
    ensures IsSquare(Swapped(a, p, q))
  {
  }

  /** The two top rows of Swapped(a, 0, 1). */
  lemma {:induction false} SwappedTop(a: Grid)
    requires 2 <= |a|
    ensures Swapped(a, 0, 1)[0] == a[1] && Swapped(a, 0, 1)[1] == a[0]
  {
  }

  /** Replacing row r >= 1 of a replaces row r - 1 of each minor along row 0. */
  lemma {:induction false} MinorRowReplaced(a: Grid, r: nat, x: seq<real>, j: nat)
    requires IsSquare(a) && 1 <= r < |a| && |x| == |a| && j < |a|
    ensures IsSquare(a[r := x])
    ensures Minor(a[r := x], 0, j) == Minor(a, 0, j)[r - 1 := DropAt(x, j)]
  {
    var n := |a|;
    GridEq(Minor(a[r := x], 0, j), Minor(a, 0, j)[r - 1 := DropAt(x, j)], n - 1, n - 1);
  }

  /** The cofactor along row 0 once row r >= 1 is replaced by x. */
  lemma {:induction false} CofactorRowReplaced(a: Grid, r: nat, x: seq<real>, j: nat)
    requires IsSquare(a) && 1 <= r < |a| && |x| == |a| && j < |a|
    ensures IsSquare(a[r := x])
    ensures Terms(a[r := x])[j] == a[0][j] * (Det(Minor(a, 0, j)[r - 1 := DropAt(x, j)]) * Sign(j))
  {
    MinorRowReplaced(a, r, x, j);
    assert Terms(a[r := x])[j] == a[r := x][0][j] * LeadCofactor(a[r := x], j);
  }

  lemma {:induction false} DropAtSubScaled(u: seq<real>, v: seq<real>, k: real, j: nat)
    requires |u| == |v| && j < |u|
    ensures DropAt(SubScaled(u, v, k), j) == SubScaled(DropAt(u, j), DropAt(v, j), k)
  {
    var l, r := DropAt(SubScaled(u, v, k), j), SubScaled(DropAt(u, j), DropAt(v, j), k);
    forall c | 0 <= c < |u| - 1 ensures l[c] == r[c] {
    }
  }

  /** Replacing row 0 of a changes no minor along row 0. */
  lemma {:induction false} MinorRow0Replaced(a: Grid, x: seq<real>, j: nat)
    requires IsSquare(a) && 0 < |a| && |x| == |a| && j < |a|
    ensures IsSquare(a[0 := x])
    ensures Minor(a[0 := x], 0, j) == Minor(a, 0, j)
  {
    var n := |a|;
    GridEq(Minor(a[0 := x], 0, j), Minor(a, 0, j), n - 1, n - 1);
  }

  /** A matrix with a column of zeros has determinant 0. */
  lemma {:induction false} DetZeroColumn(a: Grid, c: nat)
    requires IsSquare(a) && c < |a|
    requires forall r :: 0 <= r < |a| ==> a[r][c] == 0.0
    ensures Det(a) == 0.0
    decreases |a|
  {
    var t := Terms(a);
    forall j | 0 <= j < |a| ensures t[j] == 0.0 {
      assert t[j] == a[0][j] * LeadCofactor(a, j);
      assert LeadCofactor(a, j) == Det(Minor(a, 0, j)) * Sign(j);
      if j != c {
        var m := Minor(a, 0, j);
        var c' := if c < j then c else c - 1;
        assert Skip(j, c') == c;
        forall r | 0 <= r < |m| ensures m[r][c'] == 0.0 {
          assert m[r][c'] == a[r + 1][c];
        }
        DetZeroColumn(m, c');
      }
    }
    SumZero(t);
  }

  /** A matrix with a row of zeros has determinant 0. */
  lemma {:induction false} DetZeroRow(a: Grid, r: nat)
    requires IsSquare(a) && r < |a|
    requires forall c :: 0 <= c < |a| ==> a[r][c] == 0.0
    ensures Det(a) == 0.0
    decreases |a|
  {
    var t := Terms(a);
    forall j | 0 <= j < |a| ensures t[j] == 0.0 {
      assert t[j] == a[0][j] * LeadCofactor(a, j);
      assert LeadCofactor(a, j) == Det(Minor(a, 0, j)) * Sign(j);
      if r != 0 {
        var m := Minor(a, 0, j);
        var row := m[r - 1];
        forall c | 0 <= c < |m| ensures row[c] == 0.0 {
          assert row[c] == a[r][Skip(j, c)];
        }
        DetZeroRow(m, r - 1);
      }
    }
    SumZero(t);
  }

  /** One term of the expansion along row 0 is linear in row 0. */
  lemma {:induction false} LinearTermRow0(a: Grid, u: seq<real>, v: seq<real>, k: real, j: nat)
    requires IsSquare(a) && 0 < |a| && |u| == |a| && |v| == |a| && j < |a|
    ensures IsSquare(a[0 := SubScaled(u, v, k)]) && IsSquare(a[0 := u]) && IsSquare(a[0 := v])
    ensures Terms(a[0 := SubScaled(u, v, k)])[j]
         == Terms(a[0 := u])[j] - k * Terms(a[0 := v])[j]
  {
    var w := SubScaled(u, v, k);
    MinorRow0Replaced(a, w, j);
    MinorRow0Replaced(a, u, j);
    MinorRow0Replaced(a, v, j);
    var cof := LeadCofactor(a, j);
    assert LeadCofactor(a[0 := w], j) == cof;
    assert LeadCofactor(a[0 := u], j) == cof;
    assert LeadCofactor(a[0 := v], j) == cof;
    calc {
      (u[j] - k * v[j]) * cof;
      u[j] * cof - k * (v[j] * cof);
    }
  }

  /** One term of the expansion along row 0 is linear in row r >= 1. */
  lemma {:induction false} LinearTermInner(a: Grid, r: nat, u: seq<real>, v: seq<real>, k: real, j: nat)
    requires IsSquare(a) && 1 <= r < |a| && |u| == |a| && |v| == |a| && j < |a|
    ensures IsSquare(a[r := SubScaled(u, v, k)]) && IsSquare(a[r := u]) && IsSquare(a[r := v])
    ensures Terms(a[r := SubScaled(u, v, k)])[j]
         == Terms(a[r := u])[j] - k * Terms(a[r := v])[j]
    decreases |a|, 0
  {
    var w := SubScaled(u, v, k);
    var m := Minor(a, 0, j);
    var du, dv := DropAt(u, j), DropAt(v, j);
    DetLinearRow(m, r - 1, du, dv, k);
    DropAtSubScaled(u, v, k, j);
    CofactorRowReplaced(a, r, w, j);
    CofactorRowReplaced(a, r, u, j);
    CofactorRowReplaced(a, r, v, j);
    var x, y := Det(m[r - 1 := du]), Det(m[r - 1 := dv]);
    Distribute(a[0][j], x, y, k, Sign(j));
  }

  /** Term j of the expansion along row 0 is linear in row r. */
  lemma {:induction false} LinearTerm(a: Grid, r: nat, u: seq<real>, v: seq<real>, k: real, j: nat)
    requires IsSquare(a) && r < |a| && |u| == |a| && |v| == |a| && j < |a|
    ensures IsSquare(a[r := SubScaled(u, v, k)]) && IsSquare(a[r := u]) && IsSquare(a[r := v])
    ensures Terms(a[r := SubScaled(u, v, k)])[j]
         == Terms(a[r := u])[j] - k * Terms(a[r := v])[j]
    decreases |a|, 1
  {
    if r == 0 {
      LinearTermRow0(a, u, v, k, j);
    } else {
      LinearTermInner(a, r, u, v, k, j);
    }
  }

  /**
   * The determinant is linear in each row:
   * det(a with row r := u - k v) == det(a with row r := u) - k det(a with row r := v).
   */
  lemma {:induction false} DetLinearRow(a: Grid, r: nat, u: seq<real>, v: seq<real>, k: real)
    requires IsSquare(a) && r < |a| && |u| == |a| && |v| == |a|
    ensures IsSquare(a[r := SubScaled(u, v, k)]) && IsSquare(a[r := u]) && IsSquare(a[r := v])
    ensures Det(a[r := SubScaled(u, v, k)]) == Det(a[r := u]) - k * Det(a[r := v])
    decreases |a|, 2
  {
    var w := SubScaled(u, v, k);
    var tw, tu, tv := Terms(a[r := w]), Terms(a[r := u]), Terms(a[r := v]);
    forall j | 0 <= j < |a| ensures tw[j] == tu[j] - k * tv[j] {
      LinearTerm(a, r, u, v, k, j);
    }
    SumLinear(tw, tu, tv, k);
  }

  // ---------------------------------------------------------------------------
  // Exchanging two rows negates the determinant

  /** Swapping rows r, r + 1 (r >= 1) swaps rows r - 1, r of each minor along row 0. */
  lemma {:induction false} MinorSwapped(a: Grid, r: nat, j: nat)
    requires IsSquare(a) && 1 <= r && r + 1 < |a| && j < |a|
    ensures IsSquare(Swapped(a, r, r + 1))
    ensures Minor(Swapped(a, r, r + 1), 0, j) == Swapped(Minor(a, 0, j), r - 1, r)
  {
    var n := |a|;
    SwappedSquare(a, r, r + 1);
    var b, m := Swapped(a, r, r + 1), Minor(a, 0, j);
    SwappedSquare(m, r - 1, r);
    var x, y := Minor(b, 0, j), Swapped(m, r - 1, r);
    forall p, c | 0 <= p < n - 1 && 0 <= c < n - 1 ensures x[p][c] == y[p][c] {
      assert x[p][c] == b[p + 1][Skip(j, c)];
      if p == r - 1 {
        assert y[p] == m[r];
      } else if p == r {
        assert y[p] == m[r - 1];
      } else {
        assert y[p] == m[p];
      }
    }
    GridEq(x, y, n - 1, n - 1);
  }

  /** Term j of the expansion along row 0 negates when rows r, r + 1 (r >= 1) are swapped. */
  lemma {:induction false} SwapTermInner(a: Grid, r: nat, j: nat)
    requires IsSquare(a) && 1 <= r && r + 1 < |a| && j < |a|
    requires Det(Swapped(Minor(a, 0, j), r - 1, r)) == -Det(Minor(a, 0, j))
    ensures IsSquare(Swapped(a, r, r + 1))
    ensures Terms(Swapped(a, r, r + 1))[j] == -1.0 * Terms(a)[j]
  {
    MinorSwapped(a, r, j);
    var b := Swapped(a, r, r + 1);
    assert Terms(b)[j] == b[0][j] * LeadCofactor(b, j);
    assert b[0][j] == a[0][j];
  }

  /** The column of minor (0, j) that holds column c != j of the matrix. */
  function Adj(j: nat, c: nat): nat
    requires c != j
  {
    if c < j then c else c - 1
  }

  /** Term l of the expansion of minor (0, j), written in terms of the matrix itself. */
  lemma {:induction false} MinorTerm(a: Grid, j: nat, l: nat)
    requires IsSquare(a) && 2 <= |a| && j < |a| && l < |a| - 1
    ensures Terms(Minor(a, 0, j))[l] == a[1][Skip(j, l)] * LeadCofactor(Minor(a, 0, j), l)
  {
    var m := Minor(a, 0, j);
    assert Terms(m)[l] == m[0][l] * LeadCofactor(m, l);
  }

  /** a[0][j] * (-1)^j, the coefficient of minor (0, j) in the expansion along row 0. */
  function LeadCoefficient(a: Grid, j: nat): real
    requires IsSquare(a) && j < |a|
  {
    a[0][j] * Sign(j)
  }

  /**
   * The term for a[0][j] * a[1][c] in the expansion along rows 0 and 1 (0 when j == c):
   * the two cells, the determinant of the matrix without rows 0, 1 and columns j, c,
   * and the signs of the two expansion steps.
   */
  function PairTerm(a: Grid, j: nat, c: nat): real
    requires IsSquare(a) && 2 <= |a| && j < |a| && c < |a|
  {
    if j == c then 0.0
    else (a[0][j] * a[1][c]) * (Det(Minor(Minor(a, 0, j), 0, Adj(j, c))) * (Sign(j) * Sign(Adj(j, c))))
  }

  function PairGrid(a: Grid): (g: Grid)
    requires IsSquare(a) && 2 <= |a|
    ensures IsMatrix(g, |a|, |a|)
  {
    seq(|a|, j requires 0 <= j < |a| => seq(|a|, c requires 0 <= c < |a| => PairTerm(a, j, c)))
  }

  /** A sum with a zero at p whose other cells are k times those of t is k times t's sum. */
  lemma {:induction false} SumScaleSkip(g: seq<real>, t: seq<real>, p: nat, k: real)
    requires p < |g| && |t| == |g| - 1 && g[p] == 0.0
    requires forall l :: 0 <= l < |t| ==> g[Skip(p, l)] == k * t[l]
    ensures Sum(g) == k * Sum(t)
  {
    var h := DropAt(g, p);
    SumSkip(g, h, p);
    SumScale(h, t, k);
  }

  lemma {:induction false} PairGridCell(a: Grid, j: nat, c: nat)
    requires IsSquare(a) && 2 <= |a| && j < |a| && c < |a|
    ensures PairGrid(a)[j][c] == PairTerm(a, j, c)
  {
  }

  /** The arithmetic of PairCell, every product named. */
  lemma {:induction false} PairArith(p: real, cf: real, t: real, lc: real, x: real, y: real, d: real,
                                     s: real, s2: real)
    requires p == (x * y) * (d * (s * s2))
    requires cf == x * s && t == y * lc && lc == d * s2
    ensures p == cf * t
  {
  }

  /** Cell (j, c) of PairGrid for c != j, indexed by the column l of minor (0, j). */
  lemma {:induction false} PairCell(a: Grid, j: nat, l: nat)
    requires IsSquare(a) && 2 <= |a| && j < |a| && l < |a| - 1
    ensures PairGrid(a)[j][Skip(j, l)] == LeadCoefficient(a, j) * Terms(Minor(a, 0, j))[l]
  {
    var m, c := Minor(a, 0, j), Skip(j, l);
    assert Adj(j, c) == l;
    PairGridCell(a, j, c);
    MinorTerm(a, j, l);
    LeadCofactorUnfold(m, l);
    assert LeadCoefficient(a, j) == a[0][j] * Sign(j);
    PairArith(PairTerm(a, j, c), LeadCoefficient(a, j), Terms(m)[l], LeadCofactor(m, l),
              a[0][j], a[1][c], Det(Minor(m, 0, l)), Sign(j), Sign(l));
  }

  /** Row j of PairGrid is the expansion of minor (0, j), scaled by a[0][j] * (-1)^j. */
  lemma {:induction false} PairRowScaled(a: Grid, j: nat)
    requires IsSquare(a) && 2 <= |a| && j < |a|
    ensures Sum(PairGrid(a)[j]) == LeadCoefficient(a, j) * Det(Minor(a, 0, j))
  {
    var g := PairGrid(a)[j];
    var tm := Terms(Minor(a, 0, j));
    forall l | 0 <= l < |tm| ensures g[Skip(j, l)] == LeadCoefficient(a, j) * tm[l] {
      PairCell(a, j, l);
    }
    assert g[j] == PairTerm(a, j, j);
    SumScaleSkip(g, tm, j, LeadCoefficient(a, j));
  }

  lemma {:induction false} ChainArith(t: real, x: real, c: real, d: real, s: real, k: real, f: real)
    requires t == x * c && c == d * s && k == x * s && f == k * d
    ensures t == f
  {
  }

  /** Term j of the expansion along row 0 is the j-th row sum of PairGrid. */
  lemma {:induction false} DoubleExpansionTerm(a: Grid, j: nat)
    requires IsSquare(a) && 2 <= |a| && j < |a|
    ensures Terms(a)[j] == Sum(PairGrid(a)[j])
  {
    TermUnfold(a, j);
    LeadCofactorUnfold(a, j);
    PairRowScaled(a, j);
    ChainArith(Terms(a)[j], a[0][j], LeadCofactor(a, j), Det(Minor(a, 0, j)), Sign(j),
               LeadCoefficient(a, j), Sum(PairGrid(a)[j]));
  }

  /** The expansion along rows 0 and 1 together. */
  lemma {:induction false} DoubleExpansion(a: Grid)
    requires IsSquare(a) && 2 <= |a|
    ensures Det(a) == Sum(RowSums(PairGrid(a)))
  {
    var t := Terms(a);
    forall j | 0 <= j < |a| ensures t[j] == RowSums(PairGrid(a))[j] {
      DoubleExpansionTerm(a, j);
    }
    assert t == RowSums(PairGrid(a));
  }

  /** Deleting columns j then Adj(j, c) leaves the same columns as deleting c then Adj(c, j). */
  lemma {:induction false} SkipTwice(j: nat, c: nat, x: nat)
    requires j != c
    ensures Skip(j, Skip(Adj(j, c), x)) == Skip(c, Skip(Adj(c, j), x))
  {
  }

  /** Rows 0, 1 and columns j, c deleted: the swapped matrix and the original agree. */
  lemma {:induction false} MinorMinorSwapped(a: Grid, j: nat, c: nat)
    requires IsSquare(a) && 2 <= |a| && j < |a| && c < |a| && j != c
    ensures IsSquare(Swapped(a, 0, 1))
    ensures Minor(Minor(Swapped(a, 0, 1), 0, j), 0, Adj(j, c)) == Minor(Minor(a, 0, c), 0, Adj(c, j))
  {
    var n := |a|;
    var b := Swapped(a, 0, 1);
    SwappedSquare(a, 0, 1);
    var x, y := Minor(Minor(b, 0, j), 0, Adj(j, c)), Minor(Minor(a, 0, c), 0, Adj(c, j));
    forall r, q | 0 <= r < n - 2 && 0 <= q < n - 2 ensures x[r][q] == y[r][q] {
      SkipTwice(j, c, q);
      assert b[r + 2] == a[r + 2];
    }
    GridEq(x, y, n - 2, n - 2);
  }

  lemma {:induction false} SignTwice(j: nat, c: nat)
    requires j != c
    ensures Sign(j) * Sign(Adj(j, c)) == -(Sign(c) * Sign(Adj(c, j)))
  {
    if c < j {
      SignStep(j - 1);
    } else {
      SignStep(c - 1);
    }
  }

  /** The arithmetic of PairTermSwapped. */
  lemma {:induction false} SwapArith(pb: real, pa: real, x: real, y: real, d: real, sb: real, sa: real)
    requires pb == (y * x) * (d * sb) && pa == (x * y) * (d * sa) && sb == -sa
    ensures pb == -1.0 * pa
  {
  }

  /** Swapping rows 0 and 1 negates every pair term and exchanges its two columns. */
  lemma {:induction false} PairTermSwapped(a: Grid, j: nat, c: nat)
    requires IsSquare(a) && 2 <= |a| && j < |a| && c < |a|
    ensures IsSquare(Swapped(a, 0, 1))
    ensures PairTerm(Swapped(a, 0, 1), j, c) == -1.0 * PairTerm(a, c, j)
  {
    var b := Swapped(a, 0, 1);
    SwappedSquare(a, 0, 1);
    if j != c {
      MinorMinorSwapped(a, j, c);
      SwappedTop(a);
      SignTwice(j, c);
      SwapArith(PairTerm(b, j, c), PairTerm(a, c, j), a[0][c], a[1][j],
                Det(Minor(Minor(a, 0, c), 0, Adj(c, j))),
                Sign(j) * Sign(Adj(j, c)), Sign(c) * Sign(Adj(c, j)));
    }
  }

  /** Swapping rows 0 and 1 negates the pair grid and transposes it. */
  lemma {:induction false} PairGridSwapped(a: Grid, j: nat, c: nat)
    requires IsSquare(a) && 2 <= |a| && j < |a| && c < |a|
    ensures IsSquare(Swapped(a, 0, 1))
    ensures PairGrid(Swapped(a, 0, 1))[j][c] == -1.0 * PairGrid(a)[c][j]
  {
    PairTermSwapped(a, j, c);
    PairGridCell(Swapped(a, 0, 1), j, c);
    PairGridCell(a, c, j);
  }

  /** Exchanging rows 0 and 1 negates the determinant. */
  lemma {:induction false} DetSwapTop(a: Grid)
    requires IsSquare(a) && 2 <= |a|
    ensures IsSquare(Swapped(a, 0, 1)) && Det(Swapped(a, 0, 1)) == -Det(a)
  {
    var b := Swapped(a, 0, 1);
    SwappedSquare(a, 0, 1);
    DoubleExpansion(a);
    DoubleExpansion(b);
    forall j, c | 0 <= j < |a| && 0 <= c < |a| ensures PairGrid(b)[j][c] == -1.0 * PairGrid(a)[c][j] {
      PairGridSwapped(a, j, c);
    }
    SumAntiTranspose(PairGrid(a), PairGrid(b), |a|);
  }

  /** Exchanging two adjacent rows negates the determinant. */
  lemma {:induction false} DetSwapAdjacent(a: Grid, r: nat)
    requires IsSquare(a) && r + 1 < |a|
    ensures IsSquare(Swapped(a, r, r + 1)) && Det(Swapped(a, r, r + 1)) == -Det(a)
    decreases |a|
  {
    SwappedSquare(a, r, r + 1);
    if r == 0 {
      DetSwapTop(a);
    } else {
      var b := Swapped(a, r, r + 1);
      var ta, tb := Terms(a), Terms(b);
      forall j | 0 <= j < |a| ensures tb[j] == -1.0 * ta[j] {
        DetSwapAdjacent(Minor(a, 0, j), r - 1);
        SwapTermInner(a, r, j);
      }
      SumScale(tb, ta, -1.0);
    }
  }

  /** Exchanging any two distinct rows negates the determinant. */
  lemma {:induction false} DetSwap(a: Grid, p: nat, q: nat)
    requires IsSquare(a) && p < |a| && q < |a| && p != q
    ensures IsSquare(Swapped(a, p, q)) && Det(Swapped(a, p, q)) == -Det(a)
    decreases if p < q then q - p else p - q, if p < q then 0 else 1
  {
    SwappedSquare(a, p, q);
    if q < p {
      assert Swapped(a, p, q) == Swapped(a, q, p);
      DetSwap(a, q, p);
    } else if q == p + 1 {
      DetSwapAdjacent(a, p);
    } else {
      var b := Swapped(a, q - 1, q);
      SwappedSquare(a, q - 1, q);
      var c := Swapped(b, p, q - 1);
      SwappedSquare(b, p, q - 1);
      var d := Swapped(c, q - 1, q);
      assert d == Swapped(a, p, q);
      DetSwapAdjacent(a, q - 1);
      DetSwap(b, p, q - 1);
      DetSwapAdjacent(c, q - 1);
    }
  }

  /** A matrix with two equal rows has determinant 0. */
  lemma {:induction false} DetEqualRows(a: Grid, p: nat, q: nat)
    requires IsSquare(a) && p < |a| && q < |a| && p != q && a[p] == a[q]
    ensures Det(a) == 0.0
  {
    assert Swapped(a, p, q) == a;
    DetSwap(a, p, q);
  }

  /** Subtracting a multiple of another row leaves the determinant unchanged. */
  lemma {:induction false} DetSubtractRow(a: Grid, k: nat, i: nat, f: real)
    requires IsSquare(a) && k < |a| && i < |a| && k != i
    ensures IsSquare(a[k := SubScaled(a[k], a[i], f)])
    ensures Det(a[k := SubScaled(a[k], a[i], f)]) == Det(a)
  {
    DetLinearRow(a, k, a[k], a[i], f);
    assert a[k := a[k]] == a;
    DetEqualRows(a[k := a[i]], k, i);
  }

  // ---------------------------------------------------------------------------
  // Expansion along any row, the expansion CalcComplements relies on

  /** a with row i moved to the top, the rows above it moved down by one. */
  function RotateUp(a: Grid, i: nat): (z: Grid)
    requires i < |a|
    ensures |z| == |a|
  {
    [a[i]] + a[..i] + a[i + 1..]
  }

  /** The terms a[i][j] * cofactor(i, j) of the expansion along row i. */
  function RowTerms(a: Grid, i: nat): (t: seq<real>)
    requires IsSquare(a) && i < |a|
    ensures |t| == |a|
  {
    seq(|a|, j requires 0 <= j < |a| => a[i][j] * Cofactor(a, i, j))
  }

  lemma {:induction false} RotateUpSquare(a: Grid, i: nat)
    requires IsSquare(a) && i < |a|
    ensures IsSquare(RotateUp(a, i))
  {
    var z := RotateUp(a, i);
    forall r | 0 <= r < |a| ensures |z[r]| == |a| {
      assert z[r] == if r == 0 then a[i] else if r <= i then a[r - 1] else a[r];
    }
  }

  /** Moving row i up one place at a time: first past row i - 1, then the rest. */
  lemma {:induction false} RotateUpStep(a: Grid, i: nat)
    requires 0 < i < |a|
    ensures RotateUp(a, i) == RotateUp(Swapped(a, i - 1, i), i - 1)
  {
    var b := Swapped(a, i - 1, i);
    var x, y := RotateUp(a, i), RotateUp(b, i - 1);
    forall r | 0 <= r < |a| ensures x[r] == y[r] {
      assert x[r] == if r == 0 then a[i] else if r <= i then a[r - 1] else a[r];
      assert y[r] == if r == 0 then b[i - 1] else if r <= i - 1 then b[r - 1] else b[r];
    }
  }

  /** Moving row i to the top takes i adjacent exchanges: the determinant picks up (-1)^i. */
  lemma {:induction false} DetRotateUp(a: Grid, i: nat)
    requires IsSquare(a) && i < |a|
    ensures IsSquare(RotateUp(a, i)) && Det(RotateUp(a, i)) == Sign(i) * Det(a)
    decreases i
  {
    RotateUpSquare(a, i);
    if i == 0 {
      assert RotateUp(a, 0) == a;
    } else {
      var b := Swapped(a, i - 1, i);
      RotateUpStep(a, i);
      DetSwapAdjacent(a, i - 1);
      DetRotateUp(b, i - 1);
      SignStep(i - 1);
    }
  }

  /** The minor (0, j) of the rotated matrix is the minor (i, j) of the original. */
  lemma {:induction false} MinorRotateUp(a: Grid, i: nat, j: nat)
    requires IsSquare(a) && i < |a| && j < |a|
    ensures IsSquare(RotateUp(a, i)) && Minor(RotateUp(a, i), 0, j) == Minor(a, i, j)
  {
    RotateUpSquare(a, i);
    var z := RotateUp(a, i);
    var x, y := Minor(z, 0, j), Minor(a, i, j);
    forall r, c | 0 <= r < |a| - 1 && 0 <= c < |a| - 1 ensures x[r][c] == y[r][c] {
      assert z[r + 1] == a[Skip(i, r)];
    }
    GridEq(x, y, |a| - 1, |a| - 1);
  }

  lemma {:induction false} SignSquare(k: nat)
    ensures Sign(k) * Sign(k) == 1.0
  {
  }

  lemma {:induction false} UnsignArith(r: real, t: real, d: real, s: real)
    requires r == s * t && t == s * d && s * s == 1.0
    ensures r == d
  {
    calc {
      r;
      s * (s * d);
      (s * s) * d;
    }
  }

  /** The arithmetic of RowTermRotated. */
  lemma {:induction false} RotateArith(t: real, u: real, x: real, d: real, si: real, sj: real, sij: real)
    requires t == x * (d * sij) && u == x * (d * sj) && sij == si * sj
    ensures t == si * u
  {
  }

  /** Term j of the expansion along row i is (-1)^i times term j of the rotated matrix. */
  lemma {:induction false} RowTermRotated(a: Grid, i: nat, j: nat)
    requires IsSquare(a) && i < |a| && j < |a|
    ensures IsSquare(RotateUp(a, i)) && RowTerms(a, i)[j] == Sign(i) * Terms(RotateUp(a, i))[j]
  {
    var z := RotateUp(a, i);
    MinorRotateUp(a, i, j);
    TermUnfold(z, j);
    LeadCofactorUnfold(z, j);
    assert z[0] == a[i];
    SignAdd(i, j);
    RotateArith(RowTerms(a, i)[j], Terms(z)[j], a[i][j], Det(Minor(a, i, j)), Sign(i), Sign(j), Sign(i + j));
  }

  /** The expansion along row i is (-1)^i times the determinant of the rotated matrix. */
  lemma {:induction false} RowSumRotated(a: Grid, i: nat)
    requires IsSquare(a) && i < |a|
    ensures IsSquare(RotateUp(a, i)) && Sum(RowTerms(a, i)) == Sign(i) * Det(RotateUp(a, i))
  {
    var z := RotateUp(a, i);
    RotateUpSquare(a, i);
    forall j | 0 <= j < |a| ensures RowTerms(a, i)[j] == Sign(i) * Terms(z)[j] {
      RowTermRotated(a, i, j);
    }
    SumScale(RowTerms(a, i), Terms(z), Sign(i));
    assert Det(z) == Sum(Terms(z));
  }

  /** Laplace expansion along any row i gives the determinant. */
  lemma {:induction false} DetExpandRow(a: Grid, i: nat)
    requires IsSquare(a) && i < |a|
    ensures Det(a) == Sum(RowTerms(a, i))
  {
    RowSumRotated(a, i);
    DetRotateUp(a, i);
    SignSquare(i);
    UnsignArith(Sum(RowTerms(a, i)), Det(RotateUp(a, i)), Det(a), Sign(i));
  }

  // ---------------------------------------------------------------------------
  // Values

  /** Deleting row 0 and column 0 of the identity leaves the identity. */
  lemma {:induction false} MinorIdentity(n: nat)
    requires 0 < n
    ensures IsSquare(Identity(n)) && Minor(Identity(n), 0, 0) == Identity(n - 1)
  {
    var x, y := Minor(Identity(n), 0, 0), Identity(n - 1);
    forall r, c | 0 <= r < n - 1 && 0 <= c < n - 1 ensures x[r][c] == y[r][c] {
    }
    GridEq(x, y, n - 1, n - 1);
  }

  /** The identity matrix has determinant 1. */
  lemma {:induction false} DetIdentity(n: nat)
    ensures IsSquare(Identity(n)) && Det(Identity(n)) == 1.0
    decreases n
  {
    if n > 0 {
      var id := Identity(n);
      var t := Terms(id);
      MinorIdentity(n);
      DetIdentity(n - 1);
      forall j | 0 <= j < n && j != 0 ensures t[j] == 0.0 {
        TermUnfold(id, j);
      }
      TermUnfold(id, 0);
      LeadCofactorUnfold(id, 0);
      SumSingle(t, 0);
    }
  }

  /** A 1x1 matrix's determinant is its one cell. */
  lemma {:induction false} DetSingle(x: real)
    ensures IsSquare([[x]]) && Det([[x]]) == x
  {
    var a := [[x]];
    var m := Minor(a, 0, 0);
    assert m == [];
    TermUnfold(a, 0);
    LeadCofactorUnfold(a, 0);
    SumSingle(Terms(a), 0);
  }

  /** The 2x2 case of the expansion: det [[1, 2], [3, 4]] == 1 * 4 - 2 * 3. */
  lemma {:induction false} DetExample()
    ensures IsSquare([[1.0, 2.0], [3.0, 4.0]]) && Det([[1.0, 2.0], [3.0, 4.0]]) == -2.0
  {
    var a := [[1.0, 2.0], [3.0, 4.0]];
    var m0, m1 := Minor(a, 0, 0), Minor(a, 0, 1);
    assert m0[0] == [4.0];
    assert Skip(0, 0) == 1 && Skip(1, 0) == 0;
    assert m1[0][0] == a[1][0];
    assert m1[0] == [3.0];
    assert m0 == [[4.0]] && m1 == [[3.0]];
    DetSingle(4.0);
    DetSingle(3.0);
    TermUnfold(a, 0);
    TermUnfold(a, 1);
    LeadCofactorUnfold(a, 0);
    LeadCofactorUnfold(a, 1);
    var t := Terms(a);
    assert t[..1][..0] == [];
    assert Sum(t) == t[0] + t[1];
  }
}
