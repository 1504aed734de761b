/** Small facts about integer multiplication and division that the solver does not find alone. */
module Arith {

  /** Euclidean division is unique: a quotient and remainder in range are THE quotient and remainder. */
  lemma DivModUnique(a: int, n: int, q: int, m: int)
    requires n > 0 && 0 <= m < n && a == q * n + m
    ensures a / n == q && a % n == m
  {
    var q', m' := a / n, a % n;
    assert q' * n + m' == q * n + m;
    if q' > q {
      assert (q' - q) * n == m - m';
      MulAtLeast(q' - q, n);
    } else if q' < q {
      assert (q - q') * n == m' - m;
      MulAtLeast(q - q', n);
    }
  }

  /** A positive multiple of a positive number is at least that number. */
  lemma MulAtLeast(k: int, n: int)
    requires k >= 1 && n > 0
    ensures k * n >= n
  {
    assert k * n == (k - 1) * n + n;
    assert (k - 1) * n >= 0;
  }

  /** Row-major indexing: for `0 <= col < cols`, `row * cols + col` splits back into row and col. */
  lemma RowMajorSplit(row: int, col: int, cols: int)
    requires 0 <= col < cols
    ensures (row * cols + col) / cols == row && (row * cols + col) % cols == col
  {
    DivModUnique(row * cols + col, cols, row, col);
  }

  /** A cell of a `rows x cols` grid has a row-major index below `rows * cols`. */
  lemma RowMajorInRange(row: int, col: int, rows: int, cols: int)
    requires 0 <= row < rows && 0 <= col < cols
    ensures 0 <= row * cols + col < rows * cols
  {
    assert rows * cols == row * cols + (rows - row) * cols;
    MulAtLeast(rows - row, cols);
    assert row * cols >= 0;
  }

  /** Multiplication distributes over a sum of counts. */
  lemma MulAddRight(k: int, a: int, b: int)
    ensures k * (a + b) == k * a + k * b
  {
  }

  /** A row-major index below `rows * cols` splits into a row below `rows` and a column below `cols`. */
  lemma RowMajorOf(i: int, rows: int, cols: int)
    requires cols > 0 && 0 <= i < rows * cols
    ensures 0 <= i / cols < rows && 0 <= i % cols < cols
    ensures i == (i / cols) * cols + i % cols
  {
    var q, m := i / cols, i % cols;
    assert i == q * cols + m;
    assert (rows - q) * cols == rows * cols - q * cols;
    assert (rows - q) * cols > 0;
  }
}
