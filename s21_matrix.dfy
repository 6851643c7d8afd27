/**
 * The matrix class itself: a heap object holding its row and column counts and a
 * rows-by-cols block of cells, with the operations that update it in place and the
 * ones that build new matrices. Every method is specified by the value-level
 * definitions of the other modules (Add, Mul, Det, Cofactors, Inverse, ...), applied
 * to the cells the object holds before the call.
 */
module S21MatrixOop {
  import opened MatrixErrors
  import opened RealSums
  import opened Grids
  import opened Determinants
  import opened Elimination
  import opened Complements

  class S21Matrix {
    // public view of the class:
    ghost var Contents: Grid  // the cells, row by row

    // private implementation:
    var rows: nat
    var cols: nat
    var data: array2<real>  // a matrix left empty by a move holds a 0-by-0 block

    /**
     * The storage has the recorded shape and holds Contents, and a matrix has no
     * rows exactly when it has no columns.
     */
    ghost predicate Valid()
      reads this, data
      ensures Valid() ==> IsProper(Contents) && |Contents| == rows && Cols(Contents) == cols
    {
      data.Length0 == rows && data.Length1 == cols && (rows == 0 <==> cols == 0) &&
      IsMatrix(Contents, rows, cols) &&
      forall i, j :: 0 <= i < rows && 0 <= j < cols ==> data[i, j] == Contents[i][j]
    }

    // -------------------------------------------------------------------------
    // Construction

    /** The default constructor: a 1-by-1 matrix holding 0. */
    constructor ()
      ensures Valid() && rows == 1 && cols == 1 && Contents == Zero(1, 1)
      ensures fresh(data)
    {
      rows, cols := 1, 1;
      data := new real[1, 1]((_, _) => 0.0);
      Contents := Zero(1, 1);
    }

    /** The sized constructor once its dimensions have been checked: an r-by-c matrix of zeros. */
    constructor Sized(r: nat, c: nat)
      requires 1 <= r && 1 <= c
      ensures Valid() && rows == r && cols == c && Contents == Zero(r, c)
      ensures fresh(data)
    {
      rows, cols := r, c;
      data := new real[r, c]((_, _) => 0.0);
      Contents := Zero(r, c);
    }

    /**
     * The sized constructor: an r-by-c matrix of zeros, or InvalidDimension when
     * either count is below 1.
     */
    static method Create(r: int, c: int) returns (res: Result<S21Matrix>)
      ensures r < 1 || c < 1 ==> res == Failure(InvalidDimension)
      ensures 1 <= r && 1 <= c ==> res.Success? && fresh(res.value) && fresh(res.value.data)
      ensures 1 <= r && 1 <= c ==> res.value.Valid() && res.value.rows == r && res.value.cols == c
      ensures 1 <= r && 1 <= c ==> res.value.Contents == Zero(r, c)
    {
      if r < 1 || c < 1 {
        return Failure(InvalidDimension);
      }
      var m := new S21Matrix.Sized(r, c);
      return Success(m);
    }

    /** The copy constructor: the same shape and the same cells, in storage of its own. */
    constructor Copy(other: S21Matrix)
      requires other.Valid()
      ensures Valid() && rows == other.rows && cols == other.cols
      ensures Contents == other.Contents
      ensures fresh(data)
    {
      rows, cols := other.rows, other.cols;
      data := new real[other.rows, other.cols]((_, _) => 0.0);
      Contents := Zero(other.rows, other.cols);
      new;
      CopyIntoZero(other.Contents);
      CopyMatrix(other);
    }

    /**
     * The move constructor: takes over other's shape and storage and leaves other
     * as the empty 0-by-0 matrix.
     */
    constructor Move(other: S21Matrix)
      requires other.Valid()
      modifies other
      ensures Valid() && rows == old(other.rows) && cols == old(other.cols)
      ensures data == old(other.data) && Contents == old(other.Contents)
      ensures other.Valid() && other.rows == 0 && other.cols == 0 && other.Contents == []
      ensures fresh(other.data)
    {
      rows, cols, data, Contents := other.rows, other.cols, other.data, other.Contents;
      new;
      other.rows, other.cols := 0, 0;
      other.data := new real[0, 0];
      other.Contents := [];
    }

    // -------------------------------------------------------------------------
    // Private helpers

    /** Copies the common top-left block of other's cells into this matrix's storage. */
    method CopyMatrix(other: S21Matrix)
      requires Valid() && other.Valid()
      modifies this, data
      ensures Valid() && rows == old(rows) && cols == old(cols) && data == old(data)
      ensures Contents == CopyOverlap(old(Contents), old(other.Contents))
    {
      var r, c := rows, cols;
      if other.rows < rows {
        r := other.rows;
      }
      if other.cols < cols {
        c := other.cols;
      }
      var i := 0;
      while i < r
        modifies data
        invariant 0 <= i <= r
        invariant forall p, q :: 0 <= p < other.rows && 0 <= q < other.cols ==> other.data[p, q] == old(other.data[p, q])
        invariant forall p, q :: 0 <= p < rows && 0 <= q < cols ==>
          data[p, q] == if p < i && q < c then old(other.data[p, q]) else old(data[p, q])
      {
        var j := 0;
        while j < c
          modifies data
          invariant 0 <= j <= c
          invariant forall p, q :: 0 <= p < other.rows && 0 <= q < other.cols ==> other.data[p, q] == old(other.data[p, q])
          invariant forall p, q :: 0 <= p < rows && 0 <= q < cols ==>
            data[p, q] == if (p < i && q < c) || (p == i && q < j) then old(other.data[p, q]) else old(data[p, q])
        {
          data[i, j] := other.data[i, j];
          j := j + 1;
        }
        i := i + 1;
      }
      Contents := CopyOverlap(old(Contents), old(other.Contents));
    }

    /**
     * Releases the storage and allocates zeroed storage of shape r-by-c, as the
     * deallocation followed by a fresh initialisation does.
     */
    method Reinitialize(r: nat, c: nat)
      requires r == 0 <==> c == 0
      modifies this
      ensures Valid() && rows == r && cols == c && Contents == Zero(r, c)
      ensures fresh(data)
    {
      rows, cols := r, c;
      data := new real[r, c]((_, _) => 0.0);
      Contents := Zero(r, c);
    }

    /** Exchanges rows a and b. */
    method SwapRows(a: nat, b: nat)
      requires Valid() && a < rows && b < rows
      modifies this, data
      ensures Valid() && rows == old(rows) && cols == old(cols) && data == old(data)
      ensures Contents == Swapped(old(Contents), a, b)
    {
      var j := 0;
      while j < cols
        modifies data
        invariant 0 <= j <= cols
        invariant forall p, q :: 0 <= p < rows && 0 <= q < cols ==>
          data[p, q] == old(data[if q < j && p == a then b else if q < j && p == b then a else p, q])
      {
        var tmp := data[a, j];
        data[a, j] := data[b, j];
        data[b, j] := tmp;
        j := j + 1;
      }
      ghost var m := old(Contents);
      Contents := Swapped(m, a, b);
      assert forall p :: 0 <= p < rows ==> Contents[p] == m[if p == a then b else if p == b then a else p];
    }

    // -------------------------------------------------------------------------
    // Assignment and the shape

    /**
     * Assignment: this matrix takes other's shape and cells. The argument is taken
     * by value, so the cells are read from a copy of other.
     */
    method Assign(other: S21Matrix)
      requires Valid() && other.Valid()
      modifies this, data
      ensures Valid() && rows == old(other.rows) && cols == old(other.cols)
      ensures Contents == old(other.Contents)
      ensures old(rows) == old(other.rows) && old(cols) == old(other.cols) ==> data == old(data)
      ensures !(old(rows) == old(other.rows) && old(cols) == old(other.cols)) ==> fresh(data)
    {
      var byValue := new S21Matrix.Copy(other);
      if rows == byValue.rows && cols == byValue.cols {
        CopyOverlapSameShape(Contents, byValue.Contents);
      } else {
        Reinitialize(byValue.rows, byValue.cols);
        CopyIntoZero(byValue.Contents);
      }
      CopyMatrix(byValue);
    }

    /**
     * Sets the row count: below 1 is rejected; a new count keeps the cells that
     * fit and fills the new rows with zeros. A matrix without columns cannot take
     * a new row count, since the matrix of the new shape cannot be built.
     */
    method SetRows(r: int) returns (o: Outcome)
      requires Valid()
      modifies this, data
      ensures Valid()
      ensures o == if r < 1 || (r != old(rows) && old(cols) < 1) then Fail(InvalidDimension) else Pass
      ensures o.Fail? ==> rows == old(rows) && cols == old(cols) && Contents == old(Contents)
      ensures o.Pass? ==> rows == r && cols == old(cols) && Contents == Resize(old(Contents), r, old(cols))
      ensures data == old(data) || fresh(data)
    {
      if r < 1 {
        return Fail(InvalidDimension);
      }
      if rows != r {
        var made := Create(r, cols);
        if made.Failure? {
          return Fail(made.error);
        }
        var temp := made.value;
        CopyOverlapOfZero(Contents, r, cols);
        temp.CopyMatrix(this);
        Assign(temp);
      } else {
        ResizeSameShape(Contents);
      }
      return Pass;
    }

    /** Sets the column count, as SetRows does for rows. */
    method SetCols(c: int) returns (o: Outcome)
      requires Valid()
      modifies this, data
      ensures Valid()
      ensures o == if c < 1 || (c != old(cols) && old(rows) < 1) then Fail(InvalidDimension) else Pass
      ensures o.Fail? ==> rows == old(rows) && cols == old(cols) && Contents == old(Contents)
      ensures o.Pass? ==> rows == old(rows) && cols == c && Contents == Resize(old(Contents), old(rows), c)
      ensures data == old(data) || fresh(data)
    {
      if c < 1 {
        return Fail(InvalidDimension);
      }
      if cols != c {
        var made := Create(rows, c);
        if made.Failure? {
          return Fail(made.error);
        }
        var temp := made.value;
        CopyOverlapOfZero(Contents, rows, c);
        temp.CopyMatrix(this);
        Assign(temp);
      } else {
        ResizeSameShape(Contents);
      }
      return Pass;
    }

    method GetRows() returns (r: nat)
      requires Valid()
      ensures r == rows && r == |Contents|
    {
      return rows;
    }

    method GetCols() returns (c: nat)
      requires Valid()
      ensures c == cols && c == Cols(Contents)
    {
      return cols;
    }

    // -------------------------------------------------------------------------
    // Comparison and element-wise arithmetic

    /** Equality up to the tolerance: the same shape and every cell within ErrorRate. */
    method EqMatrix(other: S21Matrix) returns (result: bool)
      requires Valid() && other.Valid()
      ensures result == ApproxEqual(Contents, other.Contents)
    {
      result := true;
      if other.rows != rows || other.cols != cols {
        result := false;
      } else {
        var i := 0;
        while i < rows
          invariant 0 <= i <= rows
          invariant result == forall p, q :: 0 <= p < i && 0 <= q < cols ==>
            Abs(Contents[p][q] - other.Contents[p][q]) <= ErrorRate
        {
          var j := 0;
          while j < cols
            invariant 0 <= j <= cols
            invariant result == ((forall p, q :: 0 <= p < i && 0 <= q < cols ==>
              Abs(Contents[p][q] - other.Contents[p][q]) <= ErrorRate) &&
              (forall q :: 0 <= q < j ==> Abs(Contents[i][q] - other.Contents[i][q]) <= ErrorRate))
          {
            if Abs(data[i, j] - other.data[i, j]) > ErrorRate {
              result := false;
            }
            j := j + 1;
          }
          i := i + 1;
        }
      }
    }

    /** Adds other cell by cell; operands of different shapes are rejected and nothing changes. */
    method SumMatrix(other: S21Matrix) returns (o: Outcome)
      requires Valid() && other.Valid()
      modifies this, data
      ensures Valid() && rows == old(rows) && cols == old(cols) && data == old(data)
      ensures o == if old(rows) == old(other.rows) && old(cols) == old(other.cols) then Pass else Fail(DimensionMismatch)
      ensures o.Pass? ==> Contents == Add(old(Contents), old(other.Contents))
      ensures o.Fail? ==> Contents == old(Contents)
      ensures other != this ==> other.Contents == old(other.Contents)
      ensures other.data != data ==> other.Valid()
    {
      if rows != other.rows || cols != other.cols {
        return Fail(DimensionMismatch);
      }
      var i := 0;
      while i < rows
        modifies data
        invariant 0 <= i <= rows
        invariant other.data != data ==> forall p, q :: 0 <= p < rows && 0 <= q < cols ==> other.data[p, q] == old(other.data[p, q])
        invariant forall p, q :: 0 <= p < rows && 0 <= q < cols ==>
          data[p, q] == if p < i then old(data[p, q]) + old(other.data[p, q]) else old(data[p, q])
      {
        var j := 0;
        while j < cols
          modifies data
          invariant 0 <= j <= cols
          invariant other.data != data ==> forall p, q :: 0 <= p < rows && 0 <= q < cols ==> other.data[p, q] == old(other.data[p, q])
          invariant forall p, q :: 0 <= p < rows && 0 <= q < cols ==>
            data[p, q] == if p < i || (p == i && q < j) then old(data[p, q]) + old(other.data[p, q]) else old(data[p, q])
        {
          data[i, j] := data[i, j] + other.data[i, j];
          j := j + 1;
        }
        i := i + 1;
      }
      Contents := Add(old(Contents), old(other.Contents));
      return Pass;
    }

    /** Subtracts other cell by cell; operands of different shapes are rejected and nothing changes. */
    method SubMatrix(other: S21Matrix) returns (o: Outcome)
      requires Valid() && other.Valid()
      modifies this, data
      ensures Valid() && rows == old(rows) && cols == old(cols) && data == old(data)
      ensures o == if old(rows) == old(other.rows) && old(cols) == old(other.cols) then Pass else Fail(DimensionMismatch)
      ensures o.Pass? ==> Contents == Sub(old(Contents), old(other.Contents))
      ensures o.Fail? ==> Contents == old(Contents)
      ensures other != this ==> other.Contents == old(other.Contents)
      ensures other.data != data ==> other.Valid()
    {
      if rows != other.rows || cols != other.cols {
        return Fail(DimensionMismatch);
      }
      var i := 0;
      while i < rows
        modifies data
        invariant 0 <= i <= rows
        invariant other.data != data ==> forall p, q :: 0 <= p < rows && 0 <= q < cols ==> other.data[p, q] == old(other.data[p, q])
        invariant forall p, q :: 0 <= p < rows && 0 <= q < cols ==>
          data[p, q] == if p < i then old(data[p, q]) - old(other.data[p, q]) else old(data[p, q])
      {
        var j := 0;
        while j < cols
          modifies data
          invariant 0 <= j <= cols
          invariant other.data != data ==> forall p, q :: 0 <= p < rows && 0 <= q < cols ==> other.data[p, q] == old(other.data[p, q])
          invariant forall p, q :: 0 <= p < rows && 0 <= q < cols ==>
            data[p, q] == if p < i || (p == i && q < j) then old(data[p, q]) - old(other.data[p, q]) else old(data[p, q])
        {
          data[i, j] := data[i, j] - other.data[i, j];
          j := j + 1;
        }
        i := i + 1;
      }
      Contents := Sub(old(Contents), old(other.Contents));
      return Pass;
    }

    /** Multiplies every cell by num. */
    method MulNumber(num: real)
      requires Valid()
      modifies this, data
      ensures Valid() && rows == old(rows) && cols == old(cols) && data == old(data)
      ensures Contents == Scale(old(Contents), num)
    {
      var i := 0;
      while i < rows
        modifies data
        invariant 0 <= i <= rows
        invariant forall p, q :: 0 <= p < rows && 0 <= q < cols ==>
          data[p, q] == if p < i then old(data[p, q]) * num else old(data[p, q])
      {
        var j := 0;
        while j < cols
          modifies data
          invariant 0 <= j <= cols
          invariant forall p, q :: 0 <= p < rows && 0 <= q < cols ==>
            data[p, q] == if p < i || (p == i && q < j) then old(data[p, q]) * num else old(data[p, q])
        {
          data[i, j] := data[i, j] * num;
          j := j + 1;
        }
        i := i + 1;
      }
      Contents := Scale(old(Contents), num);
    }

    // -------------------------------------------------------------------------
    // Matrix product and transpose

    /**
     * The innermost loop of MulMatrix: adds the products of row i of this matrix
     * and column j of other, one by one, into cell (i, j) of the buffer.
     */
    method AddDotProduct(other: S21Matrix, buf: array2<real>, i: nat, j: nat)
      requires Valid() && other.Valid() && cols == other.rows && i < rows && j < other.cols
      requires buf != data && buf != other.data && i < buf.Length0 && j < buf.Length1
      modifies buf
      ensures buf[i, j] == old(buf[i, j]) + Sum(DotTerms(Contents, other.Contents, i, j))
      ensures forall p, q :: 0 <= p < buf.Length0 && 0 <= q < buf.Length1 && (p != i || q != j) ==>
        buf[p, q] == old(buf[p, q])
    {
      ghost var a, b := Contents, other.Contents;
      assert CanMultiply(a, b);
      var k := 0;
      while k < cols
        invariant 0 <= k <= cols
        invariant buf[i, j] == old(buf[i, j]) + PartialDot(a, b, i, j, k)
        invariant forall p, q :: 0 <= p < buf.Length0 && 0 <= q < buf.Length1 && (p != i || q != j) ==>
          buf[p, q] == old(buf[p, q])
      {
        PartialDotStep(a, b, i, j, k);
        buf[i, j] := buf[i, j] + data[i, k] * other.data[k, j];
        k := k + 1;
      }
      PartialDotFull(a, b, i, j);
    }

    /**
     * The two outer loops of MulMatrix: fills the zeroed buffer with this * other,
     * cell by cell in row-major order.
     */
    method MultiplyInto(other: S21Matrix, buf: array2<real>)
      requires Valid() && other.Valid() && cols == other.rows
      requires buf != data && buf != other.data && buf.Length0 == rows && buf.Length1 == other.cols
      requires forall p, q :: 0 <= p < rows && 0 <= q < other.cols ==> buf[p, q] == 0.0
      modifies buf
      ensures CanMultiply(Contents, other.Contents)
      ensures forall p, q :: 0 <= p < rows && 0 <= q < other.cols ==> buf[p, q] == Mul(Contents, other.Contents)[p][q]
    {
      ghost var m := Mul(Contents, other.Contents);
      var i := 0;
      while i < rows
        invariant 0 <= i <= rows
        invariant forall p, q :: 0 <= p < rows && 0 <= q < other.cols ==>
          buf[p, q] == if p < i then m[p][q] else 0.0
      {
        var j := 0;
        while j < other.cols
          invariant 0 <= j <= other.cols
          invariant forall p, q :: 0 <= p < rows && 0 <= q < other.cols ==>
            buf[p, q] == if p < i || (p == i && q < j) then m[p][q] else 0.0
        {
          AddDotProduct(other, buf, i, j);
          j := j + 1;
        }
        i := i + 1;
      }
    }

    /**
     * Replaces this matrix by the product this * other. The column count must match
     * other's row count, and the product must have at least one row and one column.
     */
    method MulMatrix(other: S21Matrix) returns (o: Outcome)
      requires Valid() && other.Valid()
      modifies this, data
      ensures Valid()
      ensures o == if old(cols) != old(other.rows) then Fail(DimensionMismatch)
        else if old(rows) < 1 || old(other.cols) < 1 then Fail(InvalidDimension)
        else Pass
      ensures o.Fail? ==> rows == old(rows) && cols == old(cols) && Contents == old(Contents)
      ensures o.Pass? ==> rows == old(rows) && cols == old(other.cols)
      ensures o.Pass? ==> Contents == Mul(old(Contents), old(other.Contents))
      ensures data == old(data) || fresh(data)
      ensures other != this ==> other.Contents == old(other.Contents)
      ensures other.data != data ==> other.Valid()
    {
      if cols != other.rows {
        return Fail(DimensionMismatch);
      }
      var made := Create(rows, other.cols);
      if made.Failure? {
        return Fail(made.error);
      }
      var buf := made.value;
      MultiplyInto(other, buf.data);
      buf.Contents := Mul(Contents, other.Contents);
      Assign(buf);
      return Pass;
    }

    /** A new matrix whose cell (j, i) is this matrix's cell (i, j); an empty matrix has none. */
    method Transpose() returns (res: Result<S21Matrix>)
      requires Valid()
      ensures rows == 0 ==> res == Failure(InvalidDimension)
      ensures rows != 0 ==> res.Success? && fresh(res.value) && fresh(res.value.data)
      ensures rows != 0 ==> res.value.Valid() && res.value.rows == cols && res.value.cols == rows
      ensures rows != 0 ==> res.value.Contents == Grids.Transpose(Contents)
    {
      var made := Create(cols, rows);
      if made.Failure? {
        return made;
      }
      var t := made.value;
      var i := 0;
      while i < rows
        modifies t.data
        invariant 0 <= i <= rows
        invariant forall p, q :: 0 <= p < cols && 0 <= q < rows ==> t.data[p, q] == if q < i then data[q, p] else 0.0
      {
        var j := 0;
        while j < cols
          modifies t.data
          invariant 0 <= j <= cols
          invariant forall p, q :: 0 <= p < cols && 0 <= q < rows ==>
            t.data[p, q] == if q < i || (q == i && p < j) then data[q, p] else 0.0
        {
          t.data[j, i] := data[i, j];
          j := j + 1;
        }
        i := i + 1;
      }
      t.Contents := Grids.Transpose(Contents);
      return Success(t);
    }

    // -------------------------------------------------------------------------
    // Determinant, complements and inverse

    /**
     * The pivot search of Determinant: the first row from row i down whose cell in
     * column i has the largest magnitude.
     */
    method PivotRow(i: nat) returns (pivot: nat)
      requires Valid() && rows == cols && i < rows
      ensures i <= pivot < rows && PivotAt(Contents, i, pivot)
      ensures forall r :: i <= r < pivot ==> Abs(Contents[r][i]) < Abs(Contents[pivot][i])
    {
      pivot := i;
      var j := i + 1;
      while j < rows
        invariant i + 1 <= j <= rows && i <= pivot < j
        invariant forall r :: i <= r < j ==> Abs(Contents[r][i]) <= Abs(Contents[pivot][i])
        invariant forall r :: i <= r < pivot ==> Abs(Contents[r][i]) < Abs(Contents[pivot][i])
      {
        if Abs(data[j, i]) > Abs(data[pivot, i]) {
          pivot := j;
        }
        j := j + 1;
      }
    }

    /**
     * The elimination of Determinant's step i: every row below the nonzero pivot
     * (i, i) loses Factor times row i in the columns right of column i.
     */
    method EliminateColumn(i: nat)
      requires Valid() && rows == cols && i < rows && Contents[i][i] != 0.0
      modifies this, data
      ensures Valid() && rows == old(rows) && cols == old(cols) && data == old(data)
      ensures Contents == EliminateBelow(old(Contents), i)
    {
      ghost var t := Contents;
      var j := i + 1;
      while j < rows
        modifies data
        invariant i + 1 <= j <= rows
        invariant forall r, c :: 0 <= r < rows && 0 <= c < rows ==>
          data[r, c] == if i < r < j then EliminatedRow(t, i, r)[c] else t[r][c]
      {
        var factor := data[j, i] / data[i, i];
        assert factor == Factor(t, i, j);
        var k := i + 1;
        while k < rows
          modifies data
          invariant i + 1 <= k <= rows
          invariant forall r, c :: 0 <= r < rows && 0 <= c < rows ==>
            data[r, c] == if i < r < j || (r == j && i < c < k) then EliminatedRow(t, i, r)[c] else t[r][c]
        {
          data[j, k] := data[j, k] - factor * data[i, k];
          k := k + 1;
        }
        j := j + 1;
      }
      Contents := EliminateBelow(t, i);
    }

    /**
     * The first half of Determinant's step i: the pivot search, then the exchange of
     * row i with the pivot row, negating det, when the pivot is not already at row i.
     * det times the determinant of the block from row i on is unchanged.
     */
    method PivotUp(i: nat, det: real) returns (pivot: nat, next: real)
      requires Valid() && rows == cols && i < rows
      modifies this, data
      ensures Valid() && rows == old(rows) && cols == old(cols) && data == old(data)
      ensures i <= pivot < rows && PivotAt(old(Contents), i, pivot)
      ensures forall r :: i <= r < pivot ==> Abs(old(Contents)[r][i]) < Abs(old(Contents)[pivot][i])
      ensures Contents == PivotedUp(old(Contents), i, pivot)
      ensures next == if pivot == i then det else det * -1.0
      ensures PivotAt(Contents, i, i)
      ensures next * Det(Block(Contents, i)) == det * Det(Block(old(Contents), i))
    {
      pivot := PivotRow(i);
      if pivot != i {
        ghost var t := Contents;
        SwapRows(i, pivot);
        DetBlockSwapped(t, i, pivot);
        PivotToTop(t, i, pivot);
        next := det * -1.0;
        SwapProduct(det, Det(Block(t, i)), Det(Block(Contents, i)), next);
      } else {
        next := det;
      }
    }

    /**
     * Determinant's step i past a nonzero pivot: det is multiplied by the pivot and
     * the column below it is eliminated. det times the determinant of the block
     * still to do is unchanged.
     */
    method EliminatePivot(i: nat, det: real) returns (next: real)
      requires Valid() && rows == cols && i < rows && Contents[i][i] != 0.0
      modifies this, data
      ensures Valid() && rows == old(rows) && cols == old(cols) && data == old(data)
      ensures Contents == EliminateBelow(old(Contents), i)
      ensures next == det * old(Contents)[i][i]
      ensures next * Det(Block(Contents, i + 1)) == det * Det(Block(old(Contents), i))
    {
      ghost var t := Contents;
      next := det * data[i, i];
      EliminateColumn(i);
      EliminationProduct(t, i, det, next, Contents);
    }

    /**
     * The second half of Determinant's step i, with the pivot in place: a zero pivot
     * sets det to 0 and changes no cell (the block's determinant is 0 as well);
     * otherwise EliminatePivot. det times the determinant of the block still to do
     * is unchanged.
     */
    method Reduce(i: nat, det: real) returns (next: real)
      requires Valid() && rows == cols && i < rows && PivotAt(Contents, i, i)
      modifies this, data
      ensures Valid() && rows == old(rows) && cols == old(cols) && data == old(data)
      ensures forall r, c {:trigger Reduced(old(Contents), i)[r][c]} ::
        0 <= r < rows && 0 <= c < rows ==> Contents[r][c] == Reduced(old(Contents), i)[r][c]
      ensures next == if old(Contents)[i][i] == 0.0 then 0.0 else det * old(Contents)[i][i]
      ensures next * Det(Block(Contents, i + 1)) == det * Det(Block(old(Contents), i))
    {
      if data[i, i] == 0.0 {
        DetBlockMaxZeroPivot(Contents, i);
        ZeroProduct(det, Det(Block(Contents, i)), Det(Block(Contents, i + 1)));
        next := 0.0;
      } else {
        next := EliminatePivot(i, det);
      }
    }

    /**
     * Step i of Determinant on its working copy: PivotUp, then Reduce. det times the
     * determinant of the block still to do is unchanged, and one row less is left.
     */
    method EliminationStep(i: nat, det: real) returns (pivot: nat, next: real)
      requires Valid() && rows == cols && i < rows
      modifies this, data
      ensures Valid() && rows == old(rows) && cols == old(cols) && data == old(data)
      ensures i <= pivot < rows && PivotAt(old(Contents), i, pivot)
      ensures forall r :: i <= r < pivot ==> Abs(old(Contents)[r][i]) < Abs(old(Contents)[pivot][i])
      ensures forall r, c {:trigger Reduced(PivotedUp(old(Contents), i, pivot), i)[r][c]} ::
        0 <= r < rows && 0 <= c < rows ==> Contents[r][c] == Reduced(PivotedUp(old(Contents), i, pivot), i)[r][c]
      ensures var signed := if pivot == i then det else det * -1.0;
        next == if old(Contents)[pivot][i] == 0.0 then 0.0 else signed * old(Contents)[pivot][i]
      ensures next * Det(Block(Contents, i + 1)) == det * Det(Block(old(Contents), i))
    {
      ghost var t := Contents;
      var pivoted;
      pivot, pivoted := PivotUp(i, det);
      PivotedUpCorner(t, i, pivot);
      next := Reduce(i, pivoted);
    }

    /**
     * The determinant, by Gaussian elimination with partial pivoting on a copy: the
     * product of the pivots, negated once per row exchange, and 0 once a pivot is 0.
     * It equals the cofactor expansion Det; a non-square matrix has none.
     */
    method Determinant() returns (res: Result<real>)
      requires Valid()
      ensures res == if rows == cols then Success(Det(Contents)) else Failure(NotSquare)
    {
      if rows != cols {
        return Failure(NotSquare);
      }
      var triangle := new S21Matrix.Copy(this);
      var det := triangle.Triangulate();
      return Success(det);
    }

    /**
     * Determinant's loop on its working copy: one EliminationStep per row. The
     * product it leaves in det is the determinant of the matrix it started from.
     */
    method Triangulate() returns (det: real)
      requires Valid() && rows == cols
      modifies this, data
      ensures Valid() && rows == old(rows) && cols == old(cols) && data == old(data)
      ensures det == Det(old(Contents))
    {
      ghost var a := Contents;
      det := 1.0;
      BlockWhole(a);
      var i := 0;
      while i < rows
        invariant 0 <= i <= rows && data == old(data)
        invariant Valid() && rows == old(rows) && cols == rows
        invariant det * Det(Block(Contents, i)) == Det(a)
      {
        var pivot, next := EliminationStep(i, det);
        det, i := next, i + 1;
      }
      DetBlockEmpty(Contents);
    }

    /** Fills buf with minor (a, b): the cells outside row a and column b, in order. */
    method MinorInto(a: nat, b: nat, buf: array2<real>)
      requires Valid() && rows == cols && 2 <= rows && a < rows && b < rows && buf != data
      requires buf.Length0 == rows - 1 && buf.Length1 == rows - 1
      modifies buf
      ensures forall p, q :: 0 <= p < rows - 1 && 0 <= q < rows - 1 ==> buf[p, q] == Minor(Contents, a, b)[p][q]
    {
      ghost var m := Minor(Contents, a, b);
      var n := rows;
      var i, i2 := 0, 0;
      while i < n && i2 < n - 1
        invariant 0 <= i <= n && i2 == if i <= a then i else i - 1
        invariant forall p, q :: 0 <= p < i2 && 0 <= q < n - 1 ==> buf[p, q] == m[p][q]
        decreases n - i
      {
        if i == a {
          i2 := i2 - 1;
        } else {
          assert Skip(a, i2) == i;
          var j, j2 := 0, 0;
          while j < n && j2 < n - 1
            invariant 0 <= j <= n && j2 == if j <= b then j else j - 1
            invariant forall p, q :: 0 <= p < i2 && 0 <= q < n - 1 ==> buf[p, q] == m[p][q]
            invariant forall q :: 0 <= q < j2 ==> buf[i2, q] == m[i2][q]
            decreases n - j
          {
            if j == b {
              j2 := j2 - 1;
            } else {
              assert Skip(b, j2) == j;
              buf[i2, j2] := data[i, j];
            }
            j, j2 := j + 1, j2 + 1;
          }
        }
        i, i2 := i + 1, i2 + 1;
      }
    }

    /**
     * The determinant of the minor that leaves out row a and column b. The minor is
     * built as a matrix of its own, so a 1-by-1 matrix, whose minor has no rows, has none.
     */
    method MinorMatrixDet(a: nat, b: nat) returns (res: Result<real>)
      requires Valid() && rows == cols && a < rows && b < rows
      ensures res == if rows < 2 then Failure(InvalidDimension) else Success(Det(Minor(Contents, a, b)))
    {
      var made := Create(rows - 1, rows - 1);
      if made.Failure? {
        return Failure(made.error);
      }
      var minor := made.value;
      MinorInto(a, b, minor.data);
      minor.Contents := Minor(Contents, a, b);
      res := minor.Determinant();
    }

    /** Fills buf with the complements, or fails as MinorMatrixDet does below 2 rows. */
    method ComplementsInto(buf: array2<real>) returns (o: Outcome)
      requires Valid() && rows == cols && 1 <= rows && buf != data
      requires buf.Length0 == rows && buf.Length1 == rows
      modifies buf
      ensures o == if rows < 2 then Fail(InvalidDimension) else Pass
      ensures o.Pass? ==> forall p, q :: 0 <= p < rows && 0 <= q < rows ==> buf[p, q] == Cofactor(Contents, p, q)
    {
      var i := 0;
      while i < rows
        invariant 0 <= i <= rows && (2 <= rows || i == 0)
        invariant forall p, q :: 0 <= p < i && 0 <= q < rows ==> buf[p, q] == Cofactor(Contents, p, q)
      {
        var j := 0;
        while j < rows
          invariant 0 <= j <= rows && (2 <= rows || j == 0)
          invariant forall p, q :: 0 <= p < i && 0 <= q < rows ==> buf[p, q] == Cofactor(Contents, p, q)
          invariant forall q :: 0 <= q < j ==> buf[i, q] == Cofactor(Contents, i, q)
        {
          var d := MinorMatrixDet(i, j);
          if d.Failure? {
            return Fail(d.error);
          }
          buf[i, j] := d.value;
          buf[i, j] := buf[i, j] * Sign(i + j);
          assert buf[i, j] == Cofactor(Contents, i, j);
          j := j + 1;
        }
        i := i + 1;
      }
      return Pass;
    }

    /**
     * The matrix of algebraic complements: cell (i, j) is (-1)^(i+j) times the
     * determinant of minor (i, j). It needs a square matrix of at least 2 rows.
     */
    method CalcComplements() returns (res: Result<S21Matrix>)
      requires Valid()
      ensures rows != cols ==> res == Failure(NotSquare)
      ensures rows == cols && rows < 2 ==> res == Failure(InvalidDimension)
      ensures rows == cols && rows >= 2 ==> res.Success? && fresh(res.value) && fresh(res.value.data)
      ensures rows == cols && rows >= 2 ==> res.value.Valid() && res.value.rows == rows && res.value.cols == rows
      ensures rows == cols && rows >= 2 ==> res.value.Contents == Cofactors(Contents)
    {
      if rows != cols {
        return Failure(NotSquare);
      }
      var made := Create(rows, cols);
      if made.Failure? {
        return made;
      }
      var result := made.value;
      var o := ComplementsInto(result.data);
      if o.Fail? {
        return Failure(o.error);
      }
      result.Contents := Cofactors(Contents);
      return Success(result);
    }

    /**
     * The inverse: the transposed complements scaled by 1 / det. It needs a square
     * matrix with a nonzero determinant, and complements, so at least 2 rows.
     */
    method InverseMatrix() returns (res: Result<S21Matrix>)
      requires Valid()
      ensures rows != cols ==> res == Failure(NotSquare)
      ensures rows == cols && Det(Contents) == 0.0 ==> res == Failure(SingularMatrix)
      ensures rows == cols && Det(Contents) != 0.0 && rows < 2 ==> res == Failure(InvalidDimension)
      ensures rows == cols && Det(Contents) != 0.0 && rows >= 2 ==>
        res.Success? && fresh(res.value) && fresh(res.value.data) && res.value.Valid() &&
        res.value.rows == rows && res.value.cols == rows && res.value.Contents == Inverse(Contents)
    {
      var d := Determinant();
      if d.Failure? {
        return Failure(d.error);
      }
      var det := d.value;
      if det == 0.0 {
        return Failure(SingularMatrix);
      }
      var result := new S21Matrix();
      var complements := CalcComplements();
      if complements.Failure? {
        return complements;
      }
      result.Assign(complements.value);
      var transposed := result.Transpose();
      if transposed.Failure? {
        return transposed;
      }
      result.Assign(transposed.value);
      result.MulNumber(1.0 / det);
      return Success(result);
    }

    // -------------------------------------------------------------------------
    // Operators

    /** operator==: EqMatrix against other, which is taken by value. */
    method Equals(other: S21Matrix) returns (result: bool)
      requires Valid() && other.Valid()
      ensures result == ApproxEqual(Contents, other.Contents)
    {
      var byValue := new S21Matrix.Copy(other);
      result := EqMatrix(byValue);
    }

    /** operator+: a new matrix holding this + other; operands of different shapes are rejected. */
    method Plus(other: S21Matrix) returns (res: Result<S21Matrix>)
      requires Valid() && other.Valid()
      ensures res.Success? <==> rows == other.rows && cols == other.cols
      ensures res.Failure? ==> res.error == DimensionMismatch
      ensures res.Success? ==> fresh(res.value) && fresh(res.value.data) && res.value.Valid()
      ensures res.Success? ==> res.value.rows == rows && res.value.cols == cols
      ensures res.Success? ==> res.value.Contents == Add(Contents, other.Contents)
    {
      var buf := new S21Matrix.Copy(this);
      var o := buf.SumMatrix(other);
      if o.Fail? {
        return Failure(o.error);
      }
      return Success(buf);
    }

    /** operator-: a new matrix holding this - other; operands of different shapes are rejected. */
    method Minus(other: S21Matrix) returns (res: Result<S21Matrix>)
      requires Valid() && other.Valid()
      ensures res.Success? <==> rows == other.rows && cols == other.cols
      ensures res.Failure? ==> res.error == DimensionMismatch
      ensures res.Success? ==> fresh(res.value) && fresh(res.value.data) && res.value.Valid()
      ensures res.Success? ==> res.value.rows == rows && res.value.cols == cols
      ensures res.Success? ==> res.value.Contents == Sub(Contents, other.Contents)
    {
      var buf := new S21Matrix.Copy(this);
      var o := buf.SubMatrix(other);
      if o.Fail? {
        return Failure(o.error);
      }
      return Success(buf);
    }

    /** operator* on two matrices: a new matrix holding the product, failing as MulMatrix does. */
    method Times(other: S21Matrix) returns (res: Result<S21Matrix>)
      requires Valid() && other.Valid()
      ensures cols != other.rows ==> res == Failure(DimensionMismatch)
      ensures cols == other.rows && (rows < 1 || other.cols < 1) ==> res == Failure(InvalidDimension)
      ensures cols == other.rows && 1 <= rows && 1 <= other.cols ==>
        res.Success? && fresh(res.value) && fresh(res.value.data) && res.value.Valid() &&
        res.value.rows == rows && res.value.cols == other.cols && res.value.Contents == Mul(Contents, other.Contents)
    {
      var buf := new S21Matrix.Copy(this);
      var o := buf.MulMatrix(other);
      if o.Fail? {
        return Failure(o.error);
      }
      return Success(buf);
    }

    /** operator* by a number: a new matrix with every cell multiplied by num. */
    method TimesScalar(num: real) returns (res: S21Matrix)
      requires Valid()
      ensures fresh(res) && fresh(res.data) && res.Valid() && res.rows == rows && res.cols == cols
      ensures res.Contents == Scale(Contents, num)
    {
      res := new S21Matrix.Copy(this);
      res.MulNumber(num);
    }

    /** operator+=: SumMatrix. */
    method PlusAssign(other: S21Matrix) returns (o: Outcome)
      requires Valid() && other.Valid()
      modifies this, data
      ensures Valid() && rows == old(rows) && cols == old(cols) && data == old(data)
      ensures o == if old(rows) == old(other.rows) && old(cols) == old(other.cols) then Pass else Fail(DimensionMismatch)
      ensures o.Pass? ==> Contents == Add(old(Contents), old(other.Contents))
      ensures o.Fail? ==> Contents == old(Contents)
    {
      o := SumMatrix(other);
    }

    /** operator-=: SubMatrix. */
    method MinusAssign(other: S21Matrix) returns (o: Outcome)
      requires Valid() && other.Valid()
      modifies this, data
      ensures Valid() && rows == old(rows) && cols == old(cols) && data == old(data)
      ensures o == if old(rows) == old(other.rows) && old(cols) == old(other.cols) then Pass else Fail(DimensionMismatch)
      ensures o.Pass? ==> Contents == Sub(old(Contents), old(other.Contents))
      ensures o.Fail? ==> Contents == old(Contents)
    {
      o := SubMatrix(other);
    }

    /** operator*= by a number: MulNumber. */
    method TimesAssignScalar(num: real)
      requires Valid()
      modifies this, data
      ensures Valid() && rows == old(rows) && cols == old(cols) && data == old(data)
      ensures Contents == Scale(old(Contents), num)
    {
      MulNumber(num);
    }

    /** operator*= by a matrix: MulMatrix. */
    method TimesAssign(other: S21Matrix) returns (o: Outcome)
      requires Valid() && other.Valid()
      modifies this, data
      ensures Valid()
      ensures o == if old(cols) != old(other.rows) then Fail(DimensionMismatch)
        else if old(rows) < 1 || old(other.cols) < 1 then Fail(InvalidDimension)
        else Pass
      ensures o.Fail? ==> rows == old(rows) && cols == old(cols) && Contents == old(Contents)
      ensures o.Pass? ==> rows == old(rows) && cols == old(other.cols)
      ensures o.Pass? ==> Contents == Mul(old(Contents), old(other.Contents))
      ensures data == old(data) || fresh(data)
      ensures other != this ==> other.Contents == old(other.Contents)
      ensures other.data != data ==> other.Valid()
    {
      o := MulMatrix(other);
    }

    /** operator() read through: cell (r, c), or IndexOutOfRange outside the matrix. */
    method At(r: int, c: int) returns (res: Result<real>)
      requires Valid()
      ensures res == if 0 <= r < rows && 0 <= c < cols then Success(Contents[r][c]) else Failure(IndexOutOfRange)
    {
      if rows <= r || cols <= c || r < 0 || c < 0 {
        return Failure(IndexOutOfRange);
      }
      return Success(data[r, c]);
    }

    /**
     * operator() written through: cell (r, c) becomes v and no other cell changes,
     * or IndexOutOfRange outside the matrix and nothing changes.
     */
    method Put(r: int, c: int, v: real) returns (o: Outcome)
      requires Valid()
      modifies this, data
      ensures Valid() && rows == old(rows) && cols == old(cols) && data == old(data)
      ensures o == if 0 <= r < old(rows) && 0 <= c < old(cols) then Pass else Fail(IndexOutOfRange)
      ensures o.Pass? ==> Contents == old(Contents)[r := old(Contents)[r][c := v]]
      ensures o.Fail? ==> Contents == old(Contents)
    {
      if rows <= r || cols <= c || r < 0 || c < 0 {
        return Fail(IndexOutOfRange);
      }
      data[r, c] := v;
      Contents := Contents[r := Contents[r][c := v]];
      return Pass;
    }
  }

  /** The friend operator num * m: m * num. */
  method ScalarTimes(num: real, m: S21Matrix) returns (res: S21Matrix)
    requires m.Valid()
    ensures fresh(res) && fresh(res.data) && res.Valid() && res.rows == m.rows && res.cols == m.cols
    ensures res.Contents == Scale(m.Contents, num)
  {
    res := m.TimesScalar(num);
  }
}
