/**
 * In-place transposition: the element swap it is built from; the loop exactly
 * as the source writes it, on the shapes where that loop stays inside storage
 * (at least as many rows as columns, or no rows at all), what it does to each
 * cell, and the defect it has on non-square input; and the loop invariant,
 * with its step lemmas, that proves the imperative loop of
 * Matrix.SelfTranspose correct on square input.
 */
module InPlaceTranspose {
  import opened Grid

  /** One inner-loop step: exchange cell (i, j) with cell (j, i) and touch nothing else. */
  function SwapCells(g: Cells, i: nat, j: nat): (h: Cells)
    requires i < |g| && j < |g| && j < |g[i]| && i < |g[j]|
    ensures |h| == |g| && forall p :: 0 <= p < |g| ==> |h[p]| == |g[p]|
    ensures h[i][j] == g[j][i] && h[j][i] == g[i][j]
    ensures forall p, q :: 0 <= p < |g| && 0 <= q < |g[p]| && !(p == i && q == j) && !(p == j && q == i)
              ==> h[p][q] == g[p][q]
  {
    var a, b := g[i][j], g[j][i];
    var g1 := g[i := g[i][j := b]];
    g1[j := g1[j][i := a]]
  }

  /**
   * The inner loop as written: for j up to c - 1, swap (i, j) with (j, i).
   * It exchanges cell (i, q) with cell (q, i) for every q in [j, c) and
   * leaves every other cell as it was.
   */
  function InnerLoop(g: Cells, r: nat, c: nat, i: nat, j: nat): (h: Cells)
    requires IsGrid(g, r, c) && c <= r && i < j
    ensures IsGrid(h, r, c)
    ensures forall p, q {:trigger h[p][q]} :: 0 <= p < r && 0 <= q < c ==>
      h[p][q] == if (p == i && j <= q) || (q == i && j <= p < c) then g[q][p] else g[p][q]
    decreases c - j
  {
    if j >= c then g
    else
      var s := SwapCells(g, i, j);
      var res := InnerLoop(s, r, c, i, j + 1);
      assert forall p, q {:trigger res[p][q]} :: 0 <= p < r && 0 <= q < c ==>
        res[p][q] == if (p == i && j <= q) || (q == i && j <= p < c) then g[q][p] else g[p][q]
      by {
        forall p, q | 0 <= p < r && 0 <= q < c
          ensures res[p][q] == if (p == i && j <= q) || (q == i && j <= p < c) then g[q][p] else g[p][q]
        {
          if (p == i && j + 1 <= q) || (q == i && j + 1 <= p < c) {
            assert res[p][q] == s[q][p] == g[q][p];
          } else {
            assert res[p][q] == s[p][q];
          }
        }
      }
      res
  }

  /**
   * The outer loop as written: for every row i from i up to r - 1, run the
   * inner loop from i + 1. On an empty matrix (r == 0) it does nothing,
   * whatever c is; otherwise the inner loop stays inside storage only when
   * c <= r. It exchanges cell (p, q) with cell (q, p) for every off-diagonal
   * pair with i <= p, q < c, and leaves every other cell, including every
   * row from c on, as it was.
   */
  function OuterLoop(g: Cells, r: nat, c: nat, i: nat): (h: Cells)
    requires IsGrid(g, r, c) && (c <= r || r == 0)
    ensures IsGrid(h, r, c)
    ensures forall p, q {:trigger h[p][q]} :: 0 <= p < r && 0 <= q < c ==>
      h[p][q] == if p < c && p != q && i <= p && i <= q then g[q][p] else g[p][q]
    decreases r - i
  {
    if i >= r then g
    else
      var s := InnerLoop(g, r, c, i, i + 1);
      var res := OuterLoop(s, r, c, i + 1);
      assert forall p, q {:trigger res[p][q]} :: 0 <= p < r && 0 <= q < c ==>
        res[p][q] == if p < c && p != q && i <= p && i <= q then g[q][p] else g[p][q]
      by {
        forall p, q | 0 <= p < r && 0 <= q < c
          ensures res[p][q] == if p < c && p != q && i <= p && i <= q then g[q][p] else g[p][q]
        {
          if p < c && p != q && i + 1 <= p && i + 1 <= q {
            assert res[p][q] == s[q][p] == g[q][p];
          } else {
            assert res[p][q] == s[p][q];
          }
        }
      }
      res
  }

  /**
   * The in-place transposition as written, applied to an r-by-c matrix on
   * which its loops stay inside storage (c <= r, or no rows at all), giving
   * the recorded row count, column count and storage afterwards: the
   * recorded dimensions are exchanged, the top c-by-c block is transposed,
   * every row from c on is untouched, and the storage keeps its r-by-c shape.
   */
  function SelfTransposeAsWritten(r: nat, c: nat, g: Cells): (res: (int, int, Cells))
    requires IsGrid(g, r, c) && (c <= r || r == 0)
    ensures res.0 == c && res.1 == r && IsGrid(res.2, r, c)
    ensures forall p, q {:trigger res.2[p][q]} :: 0 <= p < r && 0 <= q < c ==>
      res.2[p][q] == if p < c then g[q][p] else g[p][q]
  {
    assert forall p, q :: 0 <= p < r && 0 <= q < c && p == q ==> g[q][p] == g[p][q];
    (c, r, OuterLoop(g, r, c, 0))
  }

  /** On square input the as-written loop computes exactly the transpose. */
  lemma AsWrittenSquareIsTranspose(g: Cells, n: nat)
    requires IsGrid(g, n, n)
    ensures SelfTransposeAsWritten(n, n, g) == (n, n, Transposed(g, n, n))
  {
    var h, t := SelfTransposeAsWritten(n, n, g).2, Transposed(g, n, n);
    forall p | 0 <= p < n
      ensures h[p] == t[p]
    {
      assert forall q :: 0 <= q < n ==> h[p][q] == t[p][q];
    }
    assert h == t;
  }

  /**
   * On every non-square input it accepts, the as-written transposition leaves
   * a matrix whose storage no longer has the recorded shape.
   */
  lemma AsWrittenBreaksShape(r: nat, c: nat, g: Cells)
    requires IsGrid(g, r, c) && (c <= r || r == 0) && r != c
    ensures var res := SelfTransposeAsWritten(r, c, g); !IsGrid(res.2, res.0, res.1)
  {
  }

  /**
   * The 0-by-2 matrix: the loops run zero times and the recorded shape
   * becomes 2-by-0 over storage that holds no rows at all, so row 0, which
   * the recorded shape claims, does not exist.
   */
  lemma AsWrittenZeroByTwo()
    ensures var res := SelfTransposeAsWritten(0, 2, []);
      res == (2, 0, []) && 0 < res.0 && |res.2| == 0
  {
  }

  /**
   * The 2-by-1 matrix [[1], [2]]: no swap happens, the recorded shape becomes
   * 1-by-2, and cell (0, 1), which the bounds check of element access now
   * admits, lies past the end of the only row of length 1 it would read.
   */
  lemma AsWrittenTwoByOne()
    ensures var res := SelfTransposeAsWritten(2, 1, [[1.0], [2.0]]);
      res == (1, 2, [[1.0], [2.0]]) && 0 < res.0 && 1 < res.1 && |res.2[0]| <= 1
  {
  }

  /**
   * The off-diagonal cell (p, q) has been exchanged once the loops have
   * passed the pair (min(p, q), max(p, q)), in the order the loops visit
   * pairs (i, j) with i < j.
   */
  predicate Done(p: int, q: int, i: int, j: int)
  {
    var lo, hi := if p < q then p else q, if p < q then q else p;
    lo != hi && (lo < i || (lo == i && hi < j))
  }

  /**
   * The in-place transposition of the n-by-n grid g0 has exchanged exactly
   * the off-diagonal cells Done at (i, j), and left every other cell as it was.
   */
  ghost predicate SwappedUpTo(g0: Cells, g: Cells, n: nat, i: int, j: int)
  {
    IsGrid(g0, n, n) && IsGrid(g, n, n) &&
    (forall p, q :: 0 <= p < n && 0 <= q < n && Done(p, q, i, j) ==> g[p][q] == g0[q][p]) &&
    (forall p, q :: 0 <= p < n && 0 <= q < n && !Done(p, q, i, j) ==> g[p][q] == g0[p][q])
  }

  /** Entering the inner loop of row i: the pair (i, i) is diagonal, so nothing more is done. */
  lemma RowStart(g0: Cells, g: Cells, n: nat, i: nat)
    requires i < n && SwappedUpTo(g0, g, n, i, i)
    ensures SwappedUpTo(g0, g, n, i, i + 1)
  {
  }

  /** One inner-loop step exchanges exactly the pair (i, j) and so advances the invariant to j + 1. */
  lemma SwapStep(g0: Cells, g: Cells, n: nat, i: nat, j: nat)
    requires i < j < n && SwappedUpTo(g0, g, n, i, j)
    ensures SwappedUpTo(g0, SwapCells(g, i, j), n, i, j + 1)
  {
  }

  /** Leaving the inner loop of row i: every pair in row i is done, as the next row expects. */
  lemma RowEnd(g0: Cells, g: Cells, n: nat, i: nat)
    requires i < n && SwappedUpTo(g0, g, n, i, n)
    ensures SwappedUpTo(g0, g, n, i + 1, i + 1)
  {
  }

  /**
   * After the last row every off-diagonal pair has been exchanged once: g is
   * the transpose of g0, which is also what the loop as written computes.
   */
  lemma AllSwapped(g0: Cells, g: Cells, n: nat)
    requires SwappedUpTo(g0, g, n, n, n)
    ensures g == Transposed(g0, n, n)
    ensures (n, n, g) == SelfTransposeAsWritten(n, n, g0)
  {
    var t := Transposed(g0, n, n);
    forall p | 0 <= p < n
      ensures g[p] == t[p]
    {
      forall q | 0 <= q < n
        ensures g[p][q] == t[p][q]
      {
        assert p != q ==> Done(p, q, n, n);
      }
    }
    AsWrittenSquareIsTranspose(g0, n);
  }
}
