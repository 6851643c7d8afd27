/** Finite sums of reals, accumulated from 0 left to right as the C++ loops do. */
module RealSums {

  function Sum(s: seq<real>): real
  {
    if |s| == 0 then 0.0 else Sum(s[..|s| - 1]) + s[|s| - 1]
  }

  /** Adding one more element to a prefix: the step of an accumulating loop. */
  lemma {:induction false} SumPrefixStep(s: seq<real>, k: nat)
    requires k < |s|
    ensures Sum(s[..k + 1]) == Sum(s[..k]) + s[k]
  {
    assert s[..k + 1][..k] == s[..k];
  }

  lemma {:induction false} SumAppend(s: seq<real>, t: seq<real>)
    ensures Sum(s + t) == Sum(s) + Sum(t)
    decreases |t|
  {
    if |t| == 0 {
      assert s + t == s;
    } else {
      assert (s + t)[..|s + t| - 1] == s + t[..|t| - 1];
      SumAppend(s, t[..|t| - 1]);
    }
  }

  /** A sum is linear in its terms: if u = s - k * t pointwise, then Sum(u) = Sum(s) - k * Sum(t). */
  lemma {:induction false} SumLinear(u: seq<real>, s: seq<real>, t: seq<real>, k: real)
    requires |u| == |s| == |t|
    requires forall i :: 0 <= i < |u| ==> u[i] == s[i] - k * t[i]
    ensures Sum(u) == Sum(s) - k * Sum(t)
    decreases |u|
  {
    if |u| > 0 {
      var n := |u| - 1;
      SumLinear(u[..n], s[..n], t[..n], k);
    }
  }

  lemma {:induction false} SumScale(u: seq<real>, s: seq<real>, k: real)
    requires |u| == |s|
    requires forall i :: 0 <= i < |u| ==> u[i] == k * s[i]
    ensures Sum(u) == k * Sum(s)
    decreases |u|
  {
    if |u| > 0 {
      var n := |u| - 1;
      SumScale(u[..n], s[..n], k);
    }
  }

  lemma {:induction false} SumZero(s: seq<real>)
    requires forall i :: 0 <= i < |s| ==> s[i] == 0.0
    ensures Sum(s) == 0.0
    decreases |s|
  {
    if |s| > 0 {
      SumZero(s[..|s| - 1]);
    }
  }

  /** A sum whose terms are all 0 except the one at p is that term. */
  lemma {:induction false} SumSingle(s: seq<real>, p: nat)
    requires p < |s|
    requires forall i :: 0 <= i < |s| && i != p ==> s[i] == 0.0
    ensures Sum(s) == s[p]
    decreases |s|
  {
    var n := |s| - 1;
    if p == n {
      SumZero(s[..n]);
    } else {
      SumSingle(s[..n], p);
    }
  }

  /** Leaving out a zero term at position p does not change a sum. */
  lemma {:induction false} SumSkip(s: seq<real>, t: seq<real>, p: nat)
    requires p < |s| && s[p] == 0.0 && |t| == |s| - 1
    requires forall l :: 0 <= l < p ==> t[l] == s[l]
    requires forall l :: p <= l < |t| ==> t[l] == s[l + 1]
    ensures Sum(t) == Sum(s)
  {
    assert t == s[..p] + s[p + 1..];
    assert s == s[..p] + [s[p]] + s[p + 1..];
    SumAppend(s[..p], s[p + 1..]);
    SumAppend(s[..p] + [s[p]], s[p + 1..]);
    SumAppend(s[..p], [s[p]]);
    assert Sum([s[p]]) == s[p] by {
      assert [s[p]][..0] == [];
    }
  }

  /** The sum of each row of a rectangle of reals. */
  function RowSums(g: seq<seq<real>>): (r: seq<real>)
    ensures |r| == |g|
  {
    seq(|g|, i requires 0 <= i < |g| => Sum(g[i]))
  }

  /** Column j of a rectangle of reals that is at least j + 1 wide. */
  function Column(g: seq<seq<real>>, j: nat): (c: seq<real>)
    requires forall i :: 0 <= i < |g| ==> j < |g[i]|
    ensures |c| == |g|
  {
    seq(|g|, i requires 0 <= i < |g| => g[i][j])
  }

  /** The sum of each of the first m columns. */
  function ColumnSums(g: seq<seq<real>>, m: nat): (r: seq<real>)
    requires forall i :: 0 <= i < |g| ==> |g[i]| == m
    ensures |r| == m
  {
    seq(m, j requires 0 <= j < m => Sum(Column(g, j)))
  }

  /**
   * Finite sums commute: adding up an n-by-m rectangle of reals row by row gives the
   * same total as adding it up column by column.
   */
  lemma {:induction false} SumSwap(g: seq<seq<real>>, m: nat)
    requires forall i :: 0 <= i < |g| ==> |g[i]| == m
    ensures Sum(RowSums(g)) == Sum(ColumnSums(g, m))
    decreases |g|
  {
    var n := |g|;
    var cols := ColumnSums(g, m);
    if n == 0 {
      forall j | 0 <= j < m ensures cols[j] == 0.0 {
        assert Column(g, j) == [];
      }
      SumZero(cols);
    } else {
      var h := g[..n - 1];
      SumSwap(h, m);
      var cols' := ColumnSums(h, m);
      assert RowSums(g)[..n - 1] == RowSums(h);
      forall j | 0 <= j < m ensures cols[j] == cols'[j] - (-1.0) * g[n - 1][j] {
        assert Column(g, j)[..n - 1] == Column(h, j);
      }
      SumLinear(cols, cols', g[n - 1], -1.0);
    }
  }

  /** Row j of h is minus column j of g, so their sums are too. */
  lemma {:induction false} RowIsNegatedColumn(g: seq<seq<real>>, h: seq<seq<real>>, n: nat, j: nat)
    requires |g| == n && |h| == n && j < n
    requires forall i :: 0 <= i < n ==> |g[i]| == n && |h[i]| == n
    requires forall c :: 0 <= c < n ==> h[j][c] == -1.0 * g[c][j]
    ensures RowSums(h)[j] == -1.0 * ColumnSums(g, n)[j]
  {
    var col := Column(g, j);
    forall c | 0 <= c < n ensures h[j][c] == -1.0 * col[c] {
    }
    SumScale(h[j], col, -1.0);
  }

  /**
   * When h is minus the transpose of g (both n-by-n), the total of h is minus the
   * total of g.
   */
  lemma {:induction false} SumAntiTranspose(g: seq<seq<real>>, h: seq<seq<real>>, n: nat)
    requires |g| == n && |h| == n
    requires forall i :: 0 <= i < n ==> |g[i]| == n && |h[i]| == n
    requires forall j, c :: 0 <= j < n && 0 <= c < n ==> h[j][c] == -1.0 * g[c][j]
    ensures Sum(RowSums(h)) == -Sum(RowSums(g))
  {
    forall j | 0 <= j < n ensures RowSums(h)[j] == -1.0 * ColumnSums(g, n)[j] {
      RowIsNegatedColumn(g, h, n, j);
    }
    SumRowsNegatedColumns(g, h, n);
  }

  /** When each row sum of h is minus the matching column sum of g, so are the totals. */
  lemma {:induction false} SumRowsNegatedColumns(g: seq<seq<real>>, h: seq<seq<real>>, n: nat)
    requires |g| == n && |h| == n
    requires forall i :: 0 <= i < n ==> |g[i]| == n && |h[i]| == n
    requires forall j :: 0 <= j < n ==> RowSums(h)[j] == -1.0 * ColumnSums(g, n)[j]
    ensures Sum(RowSums(h)) == -Sum(RowSums(g))
  {
    SumScale(RowSums(h), ColumnSums(g, n), -1.0);
    SumSwap(g, n);
  }

  /** A product with both factors replaced by equal ones. */
  lemma {:induction false} ChainProduct(d: real, p: real, x: real, q: real, y: real)
    requires d == p * x && p == q && x == y
    ensures d == q * y
  {
  }
}
