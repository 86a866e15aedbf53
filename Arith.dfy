/** Integer facts about cutting `n` characters into rows of width `k`. */
module Arith {

  /** `len(range(0, n, k))`: the number of rows, ceil(n / k). */
  function CeilDiv(n: nat, k: nat): (rows: nat)
    requires k > 0
    ensures rows <= n
    ensures rows > 0 <==> n > 0
  {
    (n + k - 1) / k
  }

  /**
   * `CeilDiv(n, k)` rows of width `k` hold at least `n` characters, one
   * row fewer does not, and they hold fewer than `n + k` characters.
   */
  lemma CeilDivBounds(n: nat, k: nat)
    requires k > 0
    ensures n <= CeilDiv(n, k) * k
    ensures n > 0 ==> 1 <= CeilDiv(n, k) && (CeilDiv(n, k) - 1) * k < n && CeilDiv(n, k) * k < n + k
    ensures n == 0 ==> CeilDiv(n, k) == 0
  {
    var a := n + k - 1;
    var q := a / k;
    assert a == q * k + a % k;
    assert (q - 1) * k == q * k - k;
  }

  /** Multiplying by a non-negative factor keeps `<=`. */
  lemma MulLe(a: nat, b: nat, k: nat)
    requires a <= b
    ensures a * k <= b * k
  {
    assert b * k == a * k + (b - a) * k;
  }

  /** Cell `(j, c)` of a grid of `rows` rows of width `k` is inside the grid. */
  lemma CellInGrid(j: nat, c: nat, k: nat, rows: nat)
    requires j < rows && c < k
    ensures j * k + c < rows * k
  {
    MulLe(j + 1, rows, k);
    assert (j + 1) * k == j * k + k;
  }

  /** A position inside a grid of width `k` splits into its row and column. */
  lemma SplitPosition(p: nat, k: nat, rows: nat)
    requires k > 0 && p < rows * k
    ensures p == (p / k) * k + p % k
    ensures p / k < rows && p % k < k
  {
    if p / k >= rows {
      MulLe(rows, p / k, k);
    }
  }

  /** The first `i + 1` of `k` blocks of width `n // k` fit in `n`. */
  lemma BlocksFit(n: nat, k: nat, i: nat)
    requires k > 0 && i < k
    ensures (i + 1) * (n / k) <= n
  {
    MulLe(i + 1, k, n / k);
    assert n == k * (n / k) + n % k;
  }

  /** `n // k` whole blocks of width `k` fit in `n`. */
  lemma WholeBlocksFit(n: nat, k: nat)
    requires k > 0
    ensures (n / k) * k <= n
  {
    assert n == (n / k) * k + n % k;
  }

  /** `R * k` characters in `k` blocks give blocks of exactly `R`. */
  lemma DivExact(rows: nat, k: nat)
    requires k > 0
    ensures (rows * k) / k == rows
  {
    var q := (rows * k) / k;
    assert rows * k == q * k + (rows * k) % k;
    if q < rows {
      MulLe(q + 1, rows, k);
    } else if q > rows {
      MulLe(rows + 1, q, k);
    }
  }

  /** Cell `(j, i)` of a sequence read as a grid of `rows` rows of width `k`. */
  function Cell<T>(s: seq<T>, rows: nat, k: nat, j: nat, i: nat): T
    requires |s| == rows * k && j < rows && i < k
  {
    CellInGrid(j, i, k, rows);
    s[j * k + i]
  }

  /** Two grids of the same shape that agree cell by cell are equal. */
  lemma CellsEqual<T>(a: seq<T>, b: seq<T>, rows: nat, k: nat)
    requires k > 0 && |a| == rows * k && |b| == rows * k
    requires forall j, i :: 0 <= j < rows && 0 <= i < k ==> Cell(a, rows, k, j, i) == Cell(b, rows, k, j, i)
    ensures a == b
  {
    forall p | 0 <= p < |a| ensures a[p] == b[p] {
      SplitPosition(p, k, rows);
      assert Cell(a, rows, k, p / k, p % k) == Cell(b, rows, k, p / k, p % k);
    }
  }
}
