/** The grid index of a table document: how a rows x columns grid is laid
    over one flat sequence of cell markers. Everything here is a pure function
    of the column count ("numCols") and the sequence length; nothing is stored. */
module GridIndex {

  /** A grid coordinate, as returned by positionToRowCol. */
  datatype RowCol = RowCol(row: int, col: int)

  /** numCols: the stride counter, capped by the sequence length. */
  function NumCols(stride: int, length: nat): (c: int)
    ensures c <= stride && c <= length
    ensures c == stride || c == length
  {
    if stride < length then stride else length
  }

  /** numRows: the number of whole rows of numCols markers in the sequence
      (Math.floor(length / numCols)). An empty sequence or a zero stride makes
      numCols 0 and divides by zero; a negative stride makes numCols the
      stride and numRows negative. Only a positive stride over a non-empty
      sequence is modelled. */
  function NumRows(stride: int, length: nat): (r: nat)
    requires stride > 0 && length > 0
    ensures var c := NumCols(stride, length);
      c > 0 && r * c <= length < (r + 1) * c
    ensures r >= 1
  {
    var c := NumCols(stride, length);
    assert length == (length / c) * c + length % c;
    length / c
  }

  /** rowColToPosition. */
  function RowColToPosition(row: int, col: int, numCols: int): int
  {
    row * numCols + col
  }

  /** positionToRowCol: the row is the floor of position / numCols (Dafny's
      division by a positive number rounds down, as Math.floor does, also for
      negative positions) and the column is what remains. */
  function PositionToRowCol(position: int, numCols: int): (rc: RowCol)
    requires numCols > 0
    ensures 0 <= rc.col < numCols
    ensures RowColToPosition(rc.row, rc.col, numCols) == position
    ensures rc.row >= 0 <==> position >= 0
  {
    var row := position / numCols;
    var col := position - row * numCols;
    assert col == position % numCols;
    RowCol(row, col)
  }

  /** Division with a positive divisor has exactly one quotient and remainder. */
  lemma DivModUnique(p: int, n: int, q: int, m: int)
    requires n > 0 && 0 <= m < n && p == q * n + m
    ensures p / n == q && p % n == m
  {
    var d, r := p / n, p % n;
    assert p == d * n + r;
    assert (q - d) * n == r - m;
    if q - d >= 1 {
      MulAtLeast(q - d, n);
      assert false;
    } else if d - q >= 1 {
      MulAtLeast(d - q, n);
      assert false;
    }
  }

  /** A product with a factor of at least one is at least the other factor. */
  lemma MulAtLeast(a: int, n: int)
    requires a >= 1 && n > 0
    ensures a * n >= n
  {
    assert a * n == (a - 1) * n + n;
    assert (a - 1) * n >= 0;
  }

  /** Multiplying by a positive number keeps the order of the other factor. */
  lemma MulMonotone(a: int, b: int, n: int)
    requires a <= b && n > 0
    ensures a * n <= b * n
  {
    assert b * n - a * n == (b - a) * n;
    if a < b {
      MulAtLeast(b - a, n);
    }
  }

  /** Round trip from coordinates: for a column inside the stride, the position
      of (row, col) maps back to (row, col), for every row. */
  lemma {:induction false} RowColRoundTrip(row: int, col: int, numCols: int)
    requires numCols > 0 && 0 <= col < numCols
    ensures PositionToRowCol(RowColToPosition(row, col, numCols), numCols) == RowCol(row, col)
  {
    DivModUnique(row * numCols + col, numCols, row, col);
  }

  /** A coordinate lies inside a numRows x numCols grid exactly when its
      position lies in [0, numRows * numCols). */
  lemma {:induction false} InGridIff(row: int, col: int, numRows: nat, numCols: int)
    requires numCols > 0 && 0 <= col < numCols
    ensures 0 <= row < numRows <==>
      0 <= RowColToPosition(row, col, numCols) < numRows * numCols
  {
    var p := row * numCols + col;
    if 0 <= row < numRows {
      MulAtLeast(numRows - row, numCols);
      assert (numRows - row) * numCols == numRows * numCols - row * numCols;
      assert row * numCols >= 0;
    }
    if 0 <= p < numRows * numCols {
      if row < 0 {
        MulAtLeast(-row, numCols);
        assert false;
      }
      if row >= numRows {
        MulMonotone(numRows, row, numCols);
        assert false;
      }
    }
  }

  /** Positions follow row-major order: for columns inside the stride, one
      position precedes another exactly when its row is smaller, or the rows
      are equal and its column is smaller. */
  lemma {:induction false} PositionOrderIsRowMajor(r1: int, c1: int, r2: int, c2: int, numCols: int)
    requires numCols > 0 && 0 <= c1 < numCols && 0 <= c2 < numCols
    ensures RowColToPosition(r1, c1, numCols) < RowColToPosition(r2, c2, numCols) <==>
      r1 < r2 || (r1 == r2 && c1 < c2)
  {
    var p1, p2 := r1 * numCols + c1, r2 * numCols + c2;
    if r1 < r2 {
      MulAtLeast(r2 - r1, numCols);
      assert p2 - p1 == (r2 - r1) * numCols + c2 - c1;
    } else if r2 < r1 {
      MulAtLeast(r1 - r2, numCols);
      assert p1 - p2 == (r1 - r2) * numCols + c1 - c2;
    }
  }

  /** When the stride divides the sequence length exactly, the grid covers
      every marker: numRows * numCols == length. */
  lemma WholeRowsCoverSequence(stride: int, length: nat)
    requires 0 < stride <= length && length % stride == 0
    ensures NumRows(stride, length) * NumCols(stride, length) == length
  {
    DivModUnique(length, stride, length / stride, 0);
  }
}
