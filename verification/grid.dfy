/** Row-major addressing of the N x N simulation grid: the `index` closure of
    `FDM` and the flat-position decode used by the initial-value builder. */
module Grid {

  /** Flat position of the cell in row i, column j, rows being n cells long. */
  function Index(n: nat, i: nat, j: nat): (k: nat)
    ensures i < n && j < n ==> k < n * n
  {
    IndexBelowSize(n, i, j);
    i * n + j
  }

  /** Row of flat position k (`Math.floor(k / N)`). */
  function Row(n: nat, k: nat): (r: nat)
    requires n > 0
    ensures r * n <= k < r * n + n
  {
    k / n
  }

  /** Column of flat position k (`k % N`); k is never negative, so
      TypeScript's truncating `%` agrees with Dafny's. */
  function Col(n: nat, k: nat): (c: nat)
    requires n > 0
    ensures c < n
    ensures k == Row(n, k) * n + c
  {
    k % n
  }

  lemma IndexBelowSize(n: nat, i: nat, j: nat)
    ensures i < n && j < n ==> i * n + j < n * n
  {
    if i < n && j < n {
      assert i * n + j < i * n + n == (i + 1) * n;
      assert (i + 1) * n <= n * n by {
        assert i + 1 <= n;
      }
    }
  }

  /** Decoding an encoded in-range cell gives the cell back. */
  lemma DecodeIndex(n: nat, i: nat, j: nat)
    requires j < n
    ensures Row(n, Index(n, i, j)) == i
    ensures Col(n, Index(n, i, j)) == j
  {
    DivModUnique(i * n + j, n, i, j);
  }

  /** Euclidean division by n is unique: x == q * n + r with 0 <= r < n
      pins down both quotient and remainder. */
  lemma DivModUnique(x: int, n: int, q: int, r: int)
    requires n > 0 && 0 <= r < n && x == q * n + r
    ensures x / n == q && x % n == r
  {
    var d := q - x / n;
    assert d * n == x % n - r;
    MulAwayFromZero(d, n);
  }

  lemma MulAwayFromZero(d: int, n: int)
    requires n > 0
    ensures d >= 1 ==> d * n >= n
    ensures d <= -1 ==> d * n <= -n
  {
  }

  /** Encoding the decode of any flat position gives the position back. */
  lemma EncodeDecode(n: nat, k: nat)
    requires n > 0
    ensures Index(n, Row(n, k), Col(n, k)) == k
  {
  }

  /** A flat position inside the n*n buffer decodes to a cell inside the grid. */
  lemma DecodeInGrid(n: nat, k: nat)
    requires k < n * n
    ensures n > 0
    ensures Row(n, k) < n && Col(n, k) < n
  {
    assert n > 0;
    assert k == (k / n) * n + k % n;
  }

  /** `index` is one-to-one on the grid. */
  lemma IndexInjective(n: nat, i1: nat, j1: nat, i2: nat, j2: nat)
    requires j1 < n && j2 < n
    requires Index(n, i1, j1) == Index(n, i2, j2)
    ensures i1 == i2 && j1 == j2
  {
    DecodeIndex(n, i1, j1);
    DecodeIndex(n, i2, j2);
  }

  /** `index` maps the grid onto [0, n*n): every flat position in range is
      the index of exactly one grid cell. */
  lemma IndexOnto(n: nat, k: nat)
    requires k < n * n
    ensures exists i: nat, j: nat :: i < n && j < n && Index(n, i, j) == k
  {
    DecodeInGrid(n, k);
    EncodeDecode(n, k);
    var i, j := Row(n, k), Col(n, k);
    assert i < n && j < n && Index(n, i, j) == k;
  }
}
