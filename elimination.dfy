/**
 * The Gaussian elimination that `Determinant` runs on its working copy, stated on
 * values: the trailing block that is still to be reduced, the row exchange of partial
 * pivoting and the elimination step below a pivot. Each step is tied to the
 * determinant, which is what makes the running product `det` correct.
 */
module Elimination {
  import opened RealSums
  import opened Grids
  import opened Determinants

  /** The trailing square block of t from row i and column i on. */
  function Block(t: Grid, i: nat): (b: Grid)
    requires IsSquare(t) && i <= |t|
    ensures IsSquare(b) && |b| == |t| - i
  {
    seq(|t| - i, r requires 0 <= r < |t| - i =>
      seq(|t| - i, c requires 0 <= c < |t| - i => t[i + r][i + c]))
  }

  /** The multiplier of the elimination step: how much of pivot row i row j loses. */
  function Factor(t: Grid, i: nat, j: nat): real
    requires IsSquare(t) && i < |t| && j < |t| && t[i][i] != 0.0
  {
    t[j][i] / t[i][i]
  }

  /**
   * Row j after the elimination step at pivot i: every cell right of column i loses
   * Factor(t, i, j) times the pivot row's cell. Column i itself is left as it was.
   */
  function EliminatedRow(t: Grid, i: nat, j: nat): (u: seq<real>)
    requires IsSquare(t) && i < |t| && j < |t| && t[i][i] != 0.0
    ensures |u| == |t|
  {
    seq(|t|, k requires 0 <= k < |t| =>
      if i < k then t[j][k] - Factor(t, i, j) * t[i][k] else t[j][k])
  }

  /** t after the elimination step at pivot i: every row below row i eliminated. */
  function EliminateBelow(t: Grid, i: nat): (e: Grid)
    requires IsSquare(t) && i < |t| && t[i][i] != 0.0
    ensures IsSquare(e) && |e| == |t|
  {
    seq(|t|, j requires 0 <= j < |t| => if i < j then EliminatedRow(t, i, j) else t[j])
  }

  // ---------------------------------------------------------------------------
  // The block at the start and at the end

  lemma {:induction false} BlockWhole(t: Grid)
    requires IsSquare(t)
    ensures Block(t, 0) == t
  {
    var b := Block(t, 0);
    forall r, c | 0 <= r < |t| && 0 <= c < |t| ensures b[r][c] == t[r][c] {
    }
    GridEq(b, t, |t|, |t|);
  }

  lemma {:induction false} DetBlockEmpty(t: Grid)
    requires IsSquare(t)
    ensures Det(Block(t, |t|)) == 1.0
  {
    assert Block(t, |t|) == [];
  }

  // ---------------------------------------------------------------------------
  // Partial pivoting

  /** Exchanging rows i and p of t exchanges rows 0 and p - i of its block at i. */
  lemma {:induction false} BlockSwapped(t: Grid, i: nat, p: nat)
    requires IsSquare(t) && i <= p < |t|
    ensures IsSquare(Swapped(t, i, p))
    ensures Block(Swapped(t, i, p), i) == Swapped(Block(t, i), 0, p - i)
  {
    SwappedSquare(t, i, p);
    var n := |t| - i;
    var x, y := Block(Swapped(t, i, p), i), Swapped(Block(t, i), 0, p - i);
    SwappedSquare(Block(t, i), 0, p - i);
    forall r, c | 0 <= r < n && 0 <= c < n ensures x[r][c] == y[r][c] {
      assert Swapped(t, i, p)[i + r] == if r == 0 then t[p] else if i + r == p then t[i] else t[i + r];
    }
    GridEq(x, y, n, n);
  }

  /** The row exchange of partial pivoting negates the determinant of the block. */
  lemma {:induction false} DetBlockSwapped(t: Grid, i: nat, p: nat)
    requires IsSquare(t) && i < p < |t|
    ensures IsSquare(Swapped(t, i, p))
    ensures Det(Block(Swapped(t, i, p), i)) == -Det(Block(t, i))
  {
    BlockSwapped(t, i, p);
    DetSwap(Block(t, i), 0, p - i);
  }

  /** When column i is 0 from row i down, the block at i has determinant 0. */
  lemma {:induction false} DetBlockZeroPivot(t: Grid, i: nat)
    requires IsSquare(t) && i < |t|
    requires forall j :: i <= j < |t| ==> t[j][i] == 0.0
    ensures Det(Block(t, i)) == 0.0
  {
    var b := Block(t, i);
    forall r | 0 <= r < |b| ensures b[r][0] == 0.0 {
      assert b[r][0] == t[i + r][i];
    }
    DetZeroColumn(b, 0);
  }

  /** Column i has its largest magnitude from row i down in row p. */
  predicate PivotAt(t: Grid, i: nat, p: nat)
    requires IsSquare(t) && i <= p < |t|
  {
    forall r :: i <= r < |t| ==> Abs(t[r][i]) <= Abs(t[p][i])
  }

  /** Step i's exchange: row i and the pivot row p swap places, unless p is i. */
  function PivotedUp(t: Grid, i: nat, p: nat): (s: Grid)
    requires IsSquare(t) && i <= p < |t|
    ensures IsSquare(s) && |s| == |t|
  {
    SwappedSquare(t, i, p);
    if p == i then t else Swapped(t, i, p)
  }

  /** Step i's elimination: nothing happens at a zero pivot. */
  function Reduced(s: Grid, i: nat): (e: Grid)
    requires IsSquare(s) && i < |s|
    ensures IsSquare(e) && |e| == |s|
  {
    if s[i][i] == 0.0 then s else EliminateBelow(s, i)
  }

  /** After the exchange the pivot's cell is on the diagonal. */
  lemma {:induction false} PivotedUpCorner(t: Grid, i: nat, p: nat)
    requires IsSquare(t) && i <= p < |t|
    ensures PivotedUp(t, i, p)[i][i] == t[p][i]
  {
  }

  /** Exchanging row i with the pivot row brings the largest magnitude to the diagonal. */
  lemma {:induction false} PivotToTop(t: Grid, i: nat, p: nat)
    requires IsSquare(t) && i <= p < |t| && PivotAt(t, i, p)
    ensures IsSquare(Swapped(t, i, p)) && PivotAt(Swapped(t, i, p), i, i)
  {
    SwappedSquare(t, i, p);
    var s := Swapped(t, i, p);
    forall r | i <= r < |t| ensures Abs(s[r][i]) <= Abs(s[i][i]) {
      assert s[r] == if r == p then t[i] else if r == i then t[p] else t[r];
    }
  }

  /** A zero on the diagonal that is the largest magnitude below it leaves a zero column. */
  lemma {:induction false} DetBlockMaxZeroPivot(t: Grid, i: nat)
    requires IsSquare(t) && i < |t| && PivotAt(t, i, i) && t[i][i] == 0.0
    ensures Det(Block(t, i)) == 0.0
  {
    forall r | i <= r < |t| ensures t[r][i] == 0.0 {
      assert Abs(t[r][i]) <= 0.0;
    }
    DetBlockZeroPivot(t, i);
  }

  /**
   * The running product after a row exchange: n = d * -1 against the negated
   * block y = -x keeps the product d * x.
   */
  lemma {:induction false} SwapProduct(d: real, x: real, y: real, n: real)
    requires y == -x && n == d * -1.0
    ensures n * y == d * x
  {
  }

  /** The running product after a zero pivot: 0, and the block's determinant x is 0 as well. */
  lemma {:induction false} ZeroProduct(d: real, x: real, y: real)
    requires x == 0.0
    ensures 0.0 * y == d * x
  {
  }

  /**
   * The running product after an elimination step: n = d * p against the smaller
   * block y, where x = p * y, keeps the product d * x.
   */
  lemma {:induction false} PivotProduct(d: real, x: real, p: real, y: real, n: real)
    requires x == p * y && n == d * p
    ensures n * y == d * x
  {
  }

  // ---------------------------------------------------------------------------
  // The elimination step

  /** The multiplier of row r of a square b with b[0][0] != 0, as in Factor. */
  function Multiplier(b: Grid, r: nat): real
    requires IsSquare(b) && r < |b| && b[0][0] != 0.0
  {
    b[r][0] / b[0][0]
  }

  /** b with rows 1 .. k - 1 reduced by Multiplier times row 0. */
  function PartialClear(b: Grid, k: nat): (z: Grid)
    requires IsSquare(b) && 0 < |b| && b[0][0] != 0.0 && k <= |b|
    ensures IsSquare(z)
  {
    seq(|b|, r requires 0 <= r < |b| =>
      if 0 < r < k then SubScaled(b[r], b[0], Multiplier(b, r)) else b[r])
  }

  /** Reducing one more row is a row replacement of the kind DetSubtractRow allows. */
  lemma {:induction false} PartialClearStep(b: Grid, k: nat)
    requires IsSquare(b) && 0 < k < |b| && b[0][0] != 0.0
    ensures PartialClear(b, k + 1) ==
      PartialClear(b, k)[k := SubScaled(PartialClear(b, k)[k], PartialClear(b, k)[0], Multiplier(b, k))]
  {
  }

  /** None of the row reductions changes the determinant. */
  lemma {:induction false} DetPartialClear(b: Grid, k: nat)
    requires IsSquare(b) && 0 < k <= |b| && b[0][0] != 0.0
    ensures Det(PartialClear(b, k)) == Det(b)
    decreases k
  {
    if k == 1 {
      assert PartialClear(b, 1) == b;
    } else {
      var p := PartialClear(b, k - 1);
      DetPartialClear(b, k - 1);
      PartialClearStep(b, k - 1);
      DetSubtractRow(p, k - 1, 0, Multiplier(b, k - 1));
    }
  }

  /** A matrix whose column 0 is 0 below row 0 has determinant e[0][0] * det(minor (0, 0)). */
  lemma {:induction false} DetColumnCleared(e: Grid)
    requires IsSquare(e) && 0 < |e|
    requires forall r :: 0 < r < |e| ==> e[r][0] == 0.0
    ensures Det(e) == e[0][0] * Det(Minor(e, 0, 0))
  {
    var t := Terms(e);
    forall j | 0 < j < |e| ensures t[j] == 0.0 {
      var m := Minor(e, 0, j);
      forall r | 0 <= r < |m| ensures m[r][0] == 0.0 {
        assert Skip(0, r) == r + 1 && Skip(j, 0) == 0;
        assert m[r][0] == e[r + 1][0];
      }
      DetZeroColumn(m, 0);
      TermUnfold(e, j);
      LeadCofactorUnfold(e, j);
    }
    TermUnfold(e, 0);
    LeadCofactorUnfold(e, 0);
    SumSingle(t, 0);
  }

  /** Once every row is reduced, column 0 is 0 below row 0. */
  lemma {:induction false} PartialClearColumn(b: Grid)
    requires IsSquare(b) && 0 < |b| && b[0][0] != 0.0
    ensures forall r :: 0 < r < |b| ==> PartialClear(b, |b|)[r][0] == 0.0
  {
    forall r | 0 < r < |b| ensures PartialClear(b, |b|)[r][0] == 0.0 {
      assert PartialClear(b, |b|)[r][0] == b[r][0] - Multiplier(b, r) * b[0][0];
    }
  }

  lemma {:induction false} BlockCorner(t: Grid, i: nat)
    requires IsSquare(t) && i < |t|
    ensures Block(t, i)[0][0] == t[i][i]
  {
  }

  /** Reducing every row below row 0 leaves b[0][0] * det(minor (0, 0)) of the result. */
  lemma {:induction false} DetCleared(b: Grid)
    requires IsSquare(b) && 0 < |b| && b[0][0] != 0.0
    ensures Det(b) == b[0][0] * Det(Minor(PartialClear(b, |b|), 0, 0))
  {
    var p := PartialClear(b, |b|);
    DetPartialClear(b, |b|);
    PartialClearColumn(b);
    DetColumnCleared(p);
    assert p[0] == b[0];
  }

  /** Cell (r, c) of minor (0, 0) of p is cell (r + 1, c + 1) of p. */
  lemma {:induction false} MinorCornerCell(p: Grid, r: nat, c: nat)
    requires IsSquare(p) && r < |p| - 1 && c < |p| - 1
    ensures Minor(p, 0, 0)[r][c] == p[r + 1][c + 1]
  {
    assert Skip(0, r) == r + 1 && Skip(0, c) == c + 1;
  }

  /** Cell (r + 1, c + 1) of block i fully reduced, in the cells of t. */
  lemma {:induction false} ReducedCell(t: Grid, i: nat, r: nat, c: nat)
    requires IsSquare(t) && i < |t| && t[i][i] != 0.0 && r < |t| - i - 1 && c < |t| - i - 1
    ensures Block(t, i)[0][0] == t[i][i]
    ensures PartialClear(Block(t, i), |t| - i)[r + 1][c + 1] ==
      t[i + 1 + r][i + 1 + c] - Factor(t, i, i + 1 + r) * t[i][i + 1 + c]
  {
    BlockCells(t, i, r, c);
    PartialClearCell(Block(t, i), |t| - i, r + 1, c + 1);
  }

  /** Cell (r, c) of b fully reduced, for a row r below row 0. */
  lemma {:induction false} PartialClearCell(b: Grid, n: nat, r: nat, c: nat)
    requires IsSquare(b) && n == |b| && 0 < r < n && c < n && b[0][0] != 0.0
    ensures PartialClear(b, n)[r][c] == b[r][c] - Multiplier(b, r) * b[0][c]
  {
    assert PartialClear(b, n)[r] == SubScaled(b[r], b[0], Multiplier(b, r));
  }

  /** Cell (r, c) of the block after the elimination step at pivot i, in the cells of t. */
  lemma {:induction false} EliminatedCell(t: Grid, i: nat, r: nat, c: nat)
    requires IsSquare(t) && i < |t| && t[i][i] != 0.0 && r < |t| - i - 1 && c < |t| - i - 1
    ensures Block(EliminateBelow(t, i), i + 1)[r][c] ==
      t[i + 1 + r][i + 1 + c] - Factor(t, i, i + 1 + r) * t[i][i + 1 + c]
  {
    var row := i + 1 + r;
    assert EliminateBelow(t, i)[row] == EliminatedRow(t, i, row);
    assert Block(EliminateBelow(t, i), i + 1)[r][c] == EliminatedRow(t, i, row)[i + 1 + c];
  }

  /** The cells of block i that ReducedCell reads, and the multiplier of its row r + 1. */
  lemma {:induction false} BlockCells(t: Grid, i: nat, r: nat, c: nat)
    requires IsSquare(t) && i < |t| && t[i][i] != 0.0 && r < |t| - i - 1 && c < |t| - i - 1
    ensures Block(t, i)[r + 1][c + 1] == t[i + 1 + r][i + 1 + c] && Block(t, i)[0][c + 1] == t[i][i + 1 + c]
    ensures Block(t, i)[0][0] == t[i][i]
    ensures Multiplier(Block(t, i), r + 1) == Factor(t, i, i + 1 + r)
  {
    var b := Block(t, i);
    assert b[r + 1][0] == t[i + 1 + r][i] && b[0][0] == t[i][i];
  }

  /** One cell of MinorCleared. */
  lemma {:induction false} ClearedCell(t: Grid, i: nat, r: nat, c: nat)
    requires IsSquare(t) && i < |t| && t[i][i] != 0.0 && r < |t| - i - 1 && c < |t| - i - 1
    ensures Minor(PartialClear(Block(t, i), |t| - i), 0, 0)[r][c] == Block(EliminateBelow(t, i), i + 1)[r][c]
  {
    ReducedCell(t, i, r, c);
    EliminatedCell(t, i, r, c);
    MinorCornerCell(PartialClear(Block(t, i), |t| - i), r, c);
  }

  /** The block after the elimination step is the minor (0, 0) of the fully reduced block. */
  lemma {:induction false} MinorCleared(t: Grid, i: nat)
    requires IsSquare(t) && i < |t| && t[i][i] != 0.0
    ensures Minor(PartialClear(Block(t, i), |t| - i), 0, 0) == Block(EliminateBelow(t, i), i + 1)
  {
    var n := |t| - i - 1;
    var x, y := Minor(PartialClear(Block(t, i), |t| - i), 0, 0), Block(EliminateBelow(t, i), i + 1);
    forall r, c | 0 <= r < n && 0 <= c < n ensures x[r][c] == y[r][c] {
      ClearedCell(t, i, r, c);
    }
    GridEq(x, y, n, n);
  }

  lemma {:induction false} DetMinorCleared(t: Grid, i: nat)
    requires IsSquare(t) && i < |t| && t[i][i] != 0.0
    ensures Det(Minor(PartialClear(Block(t, i), |t| - i), 0, 0)) == Det(Block(EliminateBelow(t, i), i + 1))
  {
    MinorCleared(t, i);
  }

  /**
   * The elimination step below a nonzero pivot takes the pivot out of the determinant:
   * det(block at i) == pivot * det(block at i + 1 after the step).
   */
  lemma {:induction false} DetBlockEliminate(t: Grid, i: nat)
    requires IsSquare(t) && i < |t| && t[i][i] != 0.0
    ensures Det(Block(t, i)) == t[i][i] * Det(Block(EliminateBelow(t, i), i + 1))
  {
    var b := Block(t, i);
    BlockCorner(t, i);
    DetCleared(b);
    DetMinorCleared(t, i);
    ChainProduct(Det(b), b[0][0], Det(Minor(PartialClear(b, |b|), 0, 0)),
      t[i][i], Det(Block(EliminateBelow(t, i), i + 1)));
  }

  /**
   * det's update on a nonzero pivot: n, det multiplied by the pivot, times the
   * determinant of what is left once the column below the pivot is eliminated (e)
   * is det times the determinant of the block the step started from.
   */
  lemma {:induction false} EliminationProduct(t: Grid, i: nat, d: real, n: real, e: Grid)
    requires IsSquare(t) && i < |t| && t[i][i] != 0.0
    requires n == d * t[i][i] && e == EliminateBelow(t, i)
    ensures IsSquare(e) && |e| == |t| && n * Det(Block(e, i + 1)) == d * Det(Block(t, i))
  {
    DetBlockEliminate(t, i);
    PivotProduct(d, Det(Block(t, i)), t[i][i], Det(Block(e, i + 1)), n);
  }
}
