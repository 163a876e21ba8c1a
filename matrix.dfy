/**
 * A dense rows-by-cols matrix of scalars stored as a sequence of rows. Its
 * element access, resize and in-place transposition update the object;
 * transpose and multiplication build a fresh matrix. Every operation is
 * proved against the value-level specifications of module Grid.
 */
module Matrices {
  import opened Grid
  import opened InPlaceTranspose

  class Matrix {
    var rows: int
    var cols: int
    var data: Cells

    /** The storage invariant: data holds exactly rows rows of cols cells each. */
    ghost predicate Valid()
      reads this
    {
      IsGrid(data, rows, cols)
    }

    /** The default matrix: 0-by-0 with no storage. */
    constructor ()
      ensures Valid() && rows == 0 && cols == 0 && data == []
    {
      rows, cols, data := 0, 0, [];
    }

    /** A zero-filled r-by-c matrix. */
    constructor Zero(r: nat, c: nat)
      ensures Valid() && rows == r && cols == c
      ensures forall i, j :: 0 <= i < r && 0 <= j < c ==> data[i][j] == 0.0
    {
      rows, cols, data := r, c, Zeros(r, c);
    }

    /**
     * Construction from requested dimensions: fails with InvalidDimension
     * when either is negative, and otherwise yields a zero-filled matrix of
     * exactly that shape.
     */
    static method Create(r: int, c: int) returns (res: Result<Matrix>)
      ensures res.Ok? <==> 0 <= r && 0 <= c
      ensures res.Err? ==> res.error == InvalidDimension
      ensures res.Ok? ==> fresh(res.value) && res.value.Valid()
      ensures res.Ok? ==> res.value.rows == r && res.value.cols == c
      ensures res.Ok? ==> forall i, j :: 0 <= i < r && 0 <= j < c ==> res.value.data[i][j] == 0.0
    {
      if r < 0 || c < 0 {
        return Err(InvalidDimension);
      }
      var m := new Matrix.Zero(r, c);
      return Ok(m);
    }

    /** The row count, which is the number of stored rows. */
    function Rows(): (r: int)
      reads this
      requires Valid()
      ensures r == rows && r >= 0 && r == |data|
    {
      rows
    }

    /** The column count, which is the length of every stored row. */
    function Cols(): (c: int)
      reads this
      requires Valid()
      ensures c == cols && c >= 0 && forall i :: 0 <= i < |data| ==> |data[i]| == c
    {
      cols
    }

    /** Bounds-checked read of cell (i, j). */
    method Get(i: int, j: int) returns (res: Result<real>)
      requires Valid()
      ensures res.Ok? <==> 0 <= i < rows && 0 <= j < cols
      ensures res.Ok? ==> res.value == data[i][j]
      ensures res.Err? ==> res.error == IndexOutOfRange
    {
      if i < 0 || i >= rows || j < 0 || j >= cols {
        return Err(IndexOutOfRange);
      }
      return Ok(data[i][j]);
    }

    /**
     * Bounds-checked write of v into cell (i, j): on success only that cell
     * changes; out of range nothing changes.
     */
    method Set(i: int, j: int, v: real) returns (res: Outcome)
      requires Valid()
      modifies this
      ensures Valid() && rows == old(rows) && cols == old(cols)
      ensures res.Pass? <==> 0 <= i < rows && 0 <= j < cols
      ensures res.Fail? ==> res.error == IndexOutOfRange && data == old(data)
      ensures res.Pass? ==> data[i][j] == v
      ensures forall p, q :: 0 <= p < rows && 0 <= q < cols && (p != i || q != j)
                ==> data[p][q] == old(data[p][q])
    {
      if i < 0 || i >= rows || j < 0 || j >= cols {
        return Fail(IndexOutOfRange);
      }
      data := data[i := data[i][j := v]];
      return Pass;
    }

    /**
     * Resize to r-by-c: fails with InvalidDimension and changes nothing when
     * either is negative; otherwise the row list is resized first (new rows
     * empty), then every row is resized to c cells (new cells zero).
     */
    method Resize(r: int, c: int) returns (res: Outcome)
      requires Valid()
      modifies this
      ensures Valid()
      ensures res.Pass? <==> 0 <= r && 0 <= c
      ensures res.Fail? ==> res.error == InvalidDimension
      ensures res.Fail? ==> rows == old(rows) && cols == old(cols) && data == old(data)
      ensures res.Pass? ==> rows == r && cols == c && data == Resized(old(data), r, c)
    {
      if r < 0 || c < 0 {
        return Fail(InvalidDimension);
      }
      ghost var g0, target := data, Resized(data, r, c);
      rows, cols := r, c;
      data := VectorResize(data, r, []);
      for i := 0 to r
        invariant rows == r && cols == c && |data| == r
        invariant forall p :: 0 <= p < i ==> data[p] == target[p]
        invariant forall p :: i <= p < r ==> data[p] == if p < |g0| then g0[p] else []
      {
        data := data[i := VectorResize(data[i], c, 0.0)];
        assert data[i] == target[i];
      }
      assert data == target;
      return Pass;
    }

    /**
     * In-place transposition of a square matrix: each inner-loop step swaps
     * one off-diagonal pair, then the recorded dimensions are exchanged. The
     * outcome is the transpose, and is the same state the loop as written
     * (SelfTransposeAsWritten) computes.
     */
    method SelfTranspose()
      requires Valid() && rows == cols
      modifies this
      ensures Valid() && rows == old(cols) && cols == old(rows)
      ensures data == Transposed(old(data), old(rows), old(cols))
      ensures (rows, cols, data) == SelfTransposeAsWritten(old(rows), old(cols), old(data))
    {
      ghost var g0 := data;
      var n := rows;
      for i := 0 to n
        invariant rows == cols == n
        invariant SwappedUpTo(g0, data, n, i, i)
      {
        RowStart(g0, data, n, i);
        for j := i + 1 to n
          invariant rows == cols == n
          invariant SwappedUpTo(g0, data, n, i, j)
        {
          SwapStep(g0, data, n, i, j);
          data := SwapCells(data, i, j);
        }
        RowEnd(g0, data, n, i);
      }
      rows, cols := cols, rows;
      AllSwapped(g0, data, n);
    }

    /** A fresh cols-by-rows matrix whose cell (j, i) is this matrix's cell (i, j). */
    method Transpose() returns (t: Matrix)
      requires Valid()
      ensures fresh(t) && t.Valid() && t.rows == cols && t.cols == rows && unchanged(this)
      ensures t.data == Transposed(data, rows, cols)
    {
      t := new Matrix.Zero(cols, rows);
      for i := 0 to rows
        invariant fresh(t) && t.Valid() && t.rows == cols && t.cols == rows
        invariant forall p, q :: 0 <= p < cols && 0 <= q < i ==> t.data[p][q] == data[q][p]
        invariant forall p, q :: 0 <= p < cols && i <= q < rows ==> t.data[p][q] == 0.0
      {
        for j := 0 to cols
          invariant fresh(t) && t.Valid() && t.rows == cols && t.cols == rows
          invariant forall p, q :: 0 <= p < cols && 0 <= q < i ==> t.data[p][q] == data[q][p]
          invariant forall p :: 0 <= p < j ==> t.data[p][i] == data[i][p]
          invariant forall p :: j <= p < cols ==> t.data[p][i] == 0.0
          invariant forall p, q :: 0 <= p < cols && i < q < rows ==> t.data[p][q] == 0.0
        {
          var ok := t.Set(j, i, data[i][j]);
        }
      }
      ghost var expected := Transposed(data, rows, cols);
      forall p | 0 <= p < cols
        ensures t.data[p] == expected[p]
      {
        assert forall q :: 0 <= q < rows ==> t.data[p][q] == expected[p][q];
      }
    }

    /**
     * The product of this matrix and a: fails with DimensionMismatch when the
     * column count of this differs from the row count of a; otherwise a fresh
     * rows-by-a.cols matrix whose cell (i, j) is the sum over k of
     * this(i, k) * a(k, j), accumulated from zero in increasing k.
     */
    method Multiply(a: Matrix) returns (res: Result<Matrix>)
      requires Valid() && a.Valid()
      ensures unchanged(this) && unchanged(a)
      ensures res.Err? <==> cols != a.rows
      ensures res.Err? ==> res.error == DimensionMismatch
      ensures res.Ok? ==> fresh(res.value) && res.value.Valid()
      ensures res.Ok? ==> res.value.rows == rows && res.value.cols == a.cols
      ensures res.Ok? ==> res.value.data == Product(data, a.data, rows, cols, a.cols)
    {
      if cols != a.rows {
        return Err(DimensionMismatch);
      }
      var result := new Matrix.Zero(rows, a.cols);
      for i := 0 to rows
        invariant fresh(result) && result.Valid() && result.rows == rows && result.cols == a.cols
        invariant forall p, q :: 0 <= p < i && 0 <= q < a.cols ==>
                    result.data[p][q] == Dot(data, a.data, p, q, cols)
      {
        for j := 0 to a.cols
          invariant fresh(result) && result.Valid() && result.rows == rows && result.cols == a.cols
          invariant forall p, q :: 0 <= p < i && 0 <= q < a.cols ==>
                      result.data[p][q] == Dot(data, a.data, p, q, cols)
          invariant forall q :: 0 <= q < j ==> result.data[i][q] == Dot(data, a.data, i, q, cols)
        {
          ghost var done := result.data;
          var sum := 0.0;
          for k := 0 to cols
            invariant result.rows == rows && result.cols == a.cols && result.data == done
            invariant sum == Dot(data, a.data, i, j, k)
          {
            var x := Get(i, k);
            var y := a.Get(k, j);
            sum := sum + x.value * y.value;
          }
          var ok := result.Set(i, j, sum);
        }
      }
      ghost var expected := Product(data, a.data, rows, cols, a.cols);
      forall p | 0 <= p < rows
        ensures result.data[p] == expected[p]
      {
        assert forall q :: 0 <= q < a.cols ==> result.data[p][q] == expected[p][q];
      }
      return Ok(result);
    }
  }
}
