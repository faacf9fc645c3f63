/** Value types shared by the three utilities: Rust's fixed-width unsigned
    integers and the success/failure wrappers that replace the source's panics. */
module Common {

  /** A byte (`u8`). */
  newtype u8 = x: int | 0 <= x < 0x100

  /** A 32-bit word (`u32`). */
  newtype u32 = x: int | 0 <= x < 0x1_0000_0000

  datatype Option<T> = None | Some(value: T)

  /** The outcome of an operation that the source ends with a panic on bad input. */
  datatype Result<T, E> = Ok(value: T) | Err(error: E)

  /** Splitting `l * n + m` by `n` gives back `l` and `m` when `m < n`. */
  lemma DivModOfSum(l: nat, m: nat, n: nat)
    requires m < n
    ensures (l * n + m) / n == l && (l * n + m) % n == m
  {
    var k := l * n + m;
    var q, r := k / n, k % n;
    assert q * n + r == k;
    if q > l {
      MulAtLeast(q - l, n);
    } else if q < l {
      MulAtLeast(l - q, n);
    }
  }

  /** The quotient and remainder of an index known to be `l * n + m`. */
  lemma QuotientRemainder(i: nat, l: nat, m: nat, n: nat)
    requires i == l * n + m && m < n
    ensures i / n == l && i % n == m
  {
    DivModOfSum(l, m, n);
  }

  lemma MulAtLeast(a: int, n: int)
    requires a >= 1 && n >= 0
    ensures a * n >= n
  {
  }

  /** Index `l * n + m` of a row-major walk of `rows` rows of `n` lies below `rows * n`. */
  lemma IndexBelow(l: nat, m: nat, rows: nat, n: nat)
    requires l < rows && m < n
    ensures l * n + m < rows * n
  {
    MulAtLeast(rows - l, n);
    assert rows * n == l * n + (rows - l) * n;
  }

  lemma MulMonotone(a: nat, b: nat, n: nat)
    requires a <= b
    ensures a * n <= b * n
  {
    if a < b {
      MulAtLeast(b - a, n);
      assert b * n == a * n + (b - a) * n;
    }
  }

  /** Walk order is lexicographic in (row, column) of a row-major index. */
  lemma RowMajorOrder(i: nat, j: nat, n: nat)
    requires i < j && n > 0
    ensures i / n < j / n || (i / n == j / n && i % n < j % n)
  {
    if i / n > j / n {
      IndexBelow(j / n, j % n, i / n, n);
    }
  }

  /** The row of an index below `rows * n` is below `rows`. */
  lemma RowBelow(i: nat, rows: nat, n: nat)
    requires i < rows * n
    ensures n > 0 && i / n < rows
  {
    if n > 0 && i / n >= rows {
      MulMonotone(rows, i / n, n);
    }
  }
}
