/**
 * Value-level view of a dense matrix: a sequence of rows, each a sequence of
 * scalar cells. The functions here are the specifications the methods of
 * class Matrix (module Matrices) are proved against, and the lemmas state
 * what those specifications promise.
 */
module Grid {

  /** The three ways a matrix operation can fail. */
  datatype Error = InvalidDimension | IndexOutOfRange | DimensionMismatch

  /** A value, or the error that prevented computing it. */
  datatype Result<T> = Ok(value: T) | Err(error: Error)

  /** Success or the error of an operation that returns nothing. */
  datatype Outcome = Pass | Fail(error: Error)

  /** Row-major cell storage: a sequence of rows. */
  type Cells = seq<seq<real>>

  /** The storage invariant: g holds exactly r rows of exactly c cells each. */
  predicate IsGrid(g: Cells, r: int, c: int)
  {
    0 <= r && 0 <= c && |g| == r && forall i :: 0 <= i < |g| ==> |g[i]| == c
  }

  /** An r-by-c grid of zeros, the storage of a freshly constructed matrix. */
  function Zeros(r: nat, c: nat): (g: Cells)
    ensures IsGrid(g, r, c)
  {
    seq(r, _ => seq(c, _ => 0.0))
  }

  /**
   * The effect of resizing a vector to n elements: the first min(|s|, n)
   * elements are kept and any new element is `fill`.
   */
  function VectorResize<T>(s: seq<T>, n: nat, fill: T): (r: seq<T>)
    ensures |r| == n
    ensures forall k :: 0 <= k < n ==> r[k] == if k < |s| then s[k] else fill
  {
    if n <= |s| then s[..n] else s + seq(n - |s|, _ => fill)
  }

  /**
   * Reference definition of a resized matrix, cell by cell: a cell that
   * existed before keeps its value and every other cell is zero.
   */
  function Resized(g: Cells, r: nat, c: nat): (h: Cells)
    ensures IsGrid(h, r, c)
  {
    seq(r, i requires 0 <= i < r =>
      seq(c, j requires 0 <= j < c =>
        if i < |g| && j < |g[i]| then g[i][j] else 0.0))
  }

  /** Reference definition of the transpose of an r-by-c grid. */
  function Transposed(g: Cells, r: nat, c: nat): (h: Cells)
    requires IsGrid(g, r, c)
    ensures IsGrid(h, c, r)
  {
    seq(c, j requires 0 <= j < c => seq(r, i requires 0 <= i < r => g[i][j]))
  }

  /**
   * The sum of g[i][t] * h[t][j] over t in [0, k), accumulated from zero
   * in increasing t.
   */
  function Dot(g: Cells, h: Cells, i: nat, j: nat, k: nat): real
    requires i < |g| && k <= |g[i]| && k <= |h|
    requires forall t :: 0 <= t < k ==> j < |h[t]|
  {
    if k == 0 then 0.0 else Dot(g, h, i, j, k - 1) + g[i][k - 1] * h[k - 1][j]
  }

  /** Reference definition of the product of an n-by-m and an m-by-p grid. */
  function Product(g: Cells, h: Cells, n: nat, m: nat, p: nat): (r: Cells)
    requires IsGrid(g, n, m) && IsGrid(h, m, p)
    ensures IsGrid(r, n, p)
  {
    seq(n, i requires 0 <= i < n => seq(p, j requires 0 <= j < p => Dot(g, h, i, j, m)))
  }

  /** The n-by-n identity matrix. */
  function Identity(n: nat): (g: Cells)
    ensures IsGrid(g, n, n)
  {
    seq(n, i => seq(n, j => if i == j then 1.0 else 0.0))
  }

  // ---------------------------------------------------------------------
  // Resize

  /**
   * Resizing an r0-by-c0 grid to r-by-c keeps every cell (i, j) with
   * i < min(r0, r) and j < min(c0, c) and zeroes every other cell.
   */
  lemma ResizeKeepsPrefix(g: Cells, r0: nat, c0: nat, r: nat, c: nat)
    requires IsGrid(g, r0, c0)
    ensures IsGrid(Resized(g, r, c), r, c)
    ensures forall i, j :: 0 <= i < r && 0 <= j < c ==>
      Resized(g, r, c)[i][j] == if i < r0 && j < c0 then g[i][j] else 0.0
  {
  }

  /** Resizing a grid to its own shape changes nothing. */
  lemma ResizeSameShape(g: Cells, r: nat, c: nat)
    requires IsGrid(g, r, c)
    ensures Resized(g, r, c) == g
  {
    var h := Resized(g, r, c);
    forall i | 0 <= i < r
      ensures h[i] == g[i]
    {
      assert |h[i]| == |g[i]|;
    }
  }

  /** Growing a grid and shrinking it back to its old shape restores it. */
  lemma ResizeRoundTrip(g: Cells, r: nat, c: nat, r2: nat, c2: nat)
    requires IsGrid(g, r, c) && r <= r2 && c <= c2
    ensures Resized(Resized(g, r2, c2), r, c) == g
  {
    var h := Resized(Resized(g, r2, c2), r, c);
    forall i | 0 <= i < r
      ensures h[i] == g[i]
    {
      assert |h[i]| == |g[i]|;
    }
  }

  /** Growing [[1, 2], [3, 4]] to 3-by-3 pads it with zeros. */
  lemma ResizeGrowExample()
    ensures Resized([[1.0, 2.0], [3.0, 4.0]], 3, 3)
         == [[1.0, 2.0, 0.0], [3.0, 4.0, 0.0], [0.0, 0.0, 0.0]]
  {
    var h := Resized([[1.0, 2.0], [3.0, 4.0]], 3, 3);
    assert h[0] == [1.0, 2.0, 0.0];
    assert h[1] == [3.0, 4.0, 0.0];
    assert h[2] == [0.0, 0.0, 0.0];
  }

  /** Shrinking a 3-by-3 grid to 2-by-2 keeps its top-left block. */
  lemma ResizeShrinkExample()
    ensures Resized([[1.0, 2.0, 3.0], [4.0, 5.0, 6.0], [7.0, 8.0, 9.0]], 2, 2)
         == [[1.0, 2.0], [4.0, 5.0]]
  {
    var h := Resized([[1.0, 2.0, 3.0], [4.0, 5.0, 6.0], [7.0, 8.0, 9.0]], 2, 2);
    assert h[0] == [1.0, 2.0];
    assert h[1] == [4.0, 5.0];
  }

  // ---------------------------------------------------------------------
  // Transpose

  /** Transposing twice gives back the original grid. */
  lemma TransposeInvolution(g: Cells, r: nat, c: nat)
    requires IsGrid(g, r, c)
    ensures Transposed(Transposed(g, r, c), c, r) == g
  {
    var h := Transposed(Transposed(g, r, c), c, r);
    forall i | 0 <= i < r
      ensures h[i] == g[i]
    {
      assert |h[i]| == |g[i]|;
    }
  }

  // ---------------------------------------------------------------------
  // Product

  /** Multiplying row i by column j of the identity picks out g[i][j]. */
  lemma {:induction false} DotRightIdentity(g: Cells, n: nat, m: nat, i: nat, j: nat, k: nat)
    requires IsGrid(g, n, m) && i < n && j < m && k <= m
    ensures Dot(g, Identity(m), i, j, k) == if j < k then g[i][j] else 0.0
  {
    if k > 0 {
      DotRightIdentity(g, n, m, i, j, k - 1);
    }
  }

  /** Multiplying row i of the identity by column j picks out g[i][j]. */
  lemma {:induction false} DotLeftIdentity(g: Cells, n: nat, m: nat, i: nat, j: nat, k: nat)
    requires IsGrid(g, n, m) && i < n && j < m && k <= n
    ensures Dot(Identity(n), g, i, j, k) == if i < k then g[i][j] else 0.0
  {
    if k > 0 {
      DotLeftIdentity(g, n, m, i, j, k - 1);
    }
  }

  /** The identity is a right unit of the product. */
  lemma ProductRightIdentity(g: Cells, n: nat, m: nat)
    requires IsGrid(g, n, m)
    ensures Product(g, Identity(m), n, m, m) == g
  {
    var h := Product(g, Identity(m), n, m, m);
    forall i, j | 0 <= i < n && 0 <= j < m
      ensures h[i][j] == g[i][j]
    {
      DotRightIdentity(g, n, m, i, j, m);
    }
    forall i | 0 <= i < n
      ensures h[i] == g[i]
    {
      assert |h[i]| == |g[i]|;
    }
  }

  /** The identity is a left unit of the product. */
  lemma ProductLeftIdentity(g: Cells, n: nat, m: nat)
    requires IsGrid(g, n, m)
    ensures Product(Identity(n), g, n, n, m) == g
  {
    var h := Product(Identity(n), g, n, n, m);
    forall i, j | 0 <= i < n && 0 <= j < m
      ensures h[i][j] == g[i][j]
    {
      DotLeftIdentity(g, n, m, i, j, n);
    }
    forall i | 0 <= i < n
      ensures h[i] == g[i]
    {
      assert |h[i]| == |g[i]|;
    }
  }

  /** Row i of g times column j of h equals row j of h's transpose times column i of g's. */
  lemma {:induction false} DotTransposed(g: Cells, h: Cells, n: nat, m: nat, p: nat, i: nat, j: nat, k: nat)
    requires IsGrid(g, n, m) && IsGrid(h, m, p) && i < n && j < p && k <= m
    ensures Dot(g, h, i, j, k) == Dot(Transposed(h, m, p), Transposed(g, n, m), j, i, k)
  {
    if k > 0 {
      DotTransposed(g, h, n, m, p, i, j, k - 1);
    }
  }

  /** The transpose of a product is the product of the transposes in reverse order. */
  lemma TransposeOfProduct(g: Cells, h: Cells, n: nat, m: nat, p: nat)
    requires IsGrid(g, n, m) && IsGrid(h, m, p)
    ensures Transposed(Product(g, h, n, m, p), n, p)
         == Product(Transposed(h, m, p), Transposed(g, n, m), p, m, n)
  {
    var lhs := Transposed(Product(g, h, n, m, p), n, p);
    var rhs := Product(Transposed(h, m, p), Transposed(g, n, m), p, m, n);
    forall j, i | 0 <= j < p && 0 <= i < n
      ensures lhs[j][i] == rhs[j][i]
    {
      DotTransposed(g, h, n, m, p, i, j, m);
    }
    forall j | 0 <= j < p
      ensures lhs[j] == rhs[j]
    {
      assert |lhs[j]| == |rhs[j]|;
    }
  }

  /** [[1, 2], [3, 4]] times [[5, 6], [7, 8]] is [[19, 22], [43, 50]]. */
  lemma ProductExample()
    ensures Product([[1.0, 2.0], [3.0, 4.0]], [[5.0, 6.0], [7.0, 8.0]], 2, 2, 2)
         == [[19.0, 22.0], [43.0, 50.0]]
  {
    var g, h := [[1.0, 2.0], [3.0, 4.0]], [[5.0, 6.0], [7.0, 8.0]];
    var r := Product(g, h, 2, 2, 2);
    assert r[0] == [Dot(g, h, 0, 0, 2), Dot(g, h, 0, 1, 2)];
    assert r[1] == [Dot(g, h, 1, 0, 2), Dot(g, h, 1, 1, 2)];
  }
}
