/**
 * The columnar half of the cipher: `transpose_columns` (main.py:38-57)
 * and `untranspose_columns` (main.py:59-75), with the closed-form index
 * formulas for both and the theorem that untransposing with the argsort
 * of the key undoes transposing with the key.
 */
module Transposition {
  import opened Builtins
  import opened Arith
  import opened Permutations

  // ---------------------------------------------------------------------
  // transpose_columns
  // ---------------------------------------------------------------------

  /** `[text[i:i + k] for i in range(0, len(text), k)]` */
  function Rows(text: seq<char>, k: nat): (rows: seq<seq<char>>)
    requires k > 0
    ensures |rows| == CeilDiv(|text|, k)
  {
    seq(CeilDiv(|text|, k), j requires 0 <= j < CeilDiv(|text|, k) => Slice(text, j * k, j * k + k))
  }

  /**
   * Row `j` holds the `k` characters of `text` from position `j * k` on;
   * only the last row can be shorter, and no row is empty.
   */
  lemma RowsAt(text: seq<char>, k: nat, j: nat)
    requires k > 0 && j < CeilDiv(|text|, k)
    ensures j * k < |text|
    ensures |Rows(text, k)[j]| == Min(k, |text| - j * k) > 0
    ensures j < CeilDiv(|text|, k) - 1 ==> |Rows(text, k)[j]| == k
    ensures forall c :: 0 <= c < |Rows(text, k)[j]| ==> Rows(text, k)[j][c] == text[j * k + c]
  {
    var rowCount := CeilDiv(|text|, k);
    CeilDivBounds(|text|, k);
    MulLe(j, rowCount - 1, k);
    if j < rowCount - 1 {
      MulLe(j + 1, rowCount - 1, k);
      assert (j + 1) * k == j * k + k;
    }
  }

  /** `if len(rows[-1]) < k: rows[-1] += ' ' * (k - len(rows[-1]))` */
  function PadLast(rows: seq<seq<char>>, k: nat): (padded: seq<seq<char>>)
    requires |rows| > 0
    ensures |padded| == |rows|
    ensures forall j :: 0 <= j < |rows| - 1 ==> padded[j] == rows[j]
    ensures |rows[|rows| - 1]| <= k ==> |padded[|rows| - 1]| == k
  {
    var last := rows[|rows| - 1];
    if |last| < k then rows[|rows| - 1 := last + Spaces(k - |last|)] else rows
  }

  /** The rows of a non-empty text after padding: a grid of `CeilDiv(|text|, k)` rows of width `k`. */
  function Grid(text: seq<char>, k: nat): (grid: seq<seq<char>>)
    requires k > 0 && |text| > 0
    ensures |grid| == CeilDiv(|text|, k)
    ensures forall j :: 0 <= j < |grid| ==> |grid[j]| == k
  {
    var rows := Rows(text, k);
    assert forall j :: 0 <= j < |rows| ==> |rows[j]| <= k && (j < |rows| - 1 ==> |rows[j]| == k) by {
      forall j | 0 <= j < |rows| ensures |rows[j]| <= k && (j < |rows| - 1 ==> |rows[j]| == k) {
        RowsAt(text, k, j);
      }
    }
    PadLast(rows, k)
  }

  /** The text padded with spaces up to a whole number of rows. */
  function Padded(text: seq<char>, k: nat): (padded: seq<char>)
    requires k > 0
    ensures |padded| == CeilDiv(|text|, k) * k
    ensures padded[..|text|] == text
    ensures forall p :: |text| <= p < |padded| ==> padded[p] == ' '
  {
    CeilDivBounds(|text|, k);
    text + Spaces(CeilDiv(|text|, k) * k - |text|)
  }

  /** Cell `(j, c)` of the padded grid is character `j * k + c` of the padded text. */
  lemma GridAt(text: seq<char>, k: nat, j: nat, c: nat)
    requires k > 0 && |text| > 0 && j < CeilDiv(|text|, k) && c < k
    ensures j * k + c < |Padded(text, k)|
    ensures Grid(text, k)[j][c] == Padded(text, k)[j * k + c]
  {
    CellInGrid(j, c, k, CeilDiv(|text|, k));
    RowsAt(text, k, j);
    var rows := Rows(text, k);
    if c < |rows[j]| {
      assert j * k + c < |text|;
    } else {
      assert j == |rows| - 1;
      assert Grid(text, k)[j] == rows[j] + Spaces(k - |rows[j]|);
    }
  }

  /** `[''.join(row[i] for row in rows) for i in range(k)]` */
  function Columns(grid: seq<seq<char>>, k: nat): (columns: seq<seq<char>>)
    requires forall j :: 0 <= j < |grid| ==> |grid[j]| == k
    ensures |columns| == k
    ensures forall i :: 0 <= i < k ==> |columns[i]| == |grid|
    ensures forall i, j :: 0 <= i < k && 0 <= j < |grid| ==> columns[i][j] == grid[j][i]
  {
    seq(k, i requires 0 <= i < k => seq(|grid|, j requires 0 <= j < |grid| => grid[j][i]))
  }

  /** `[columns[key.index(i)] for i in range(k)]`, for a key in which every `i` is found. */
  function SortedColumns(text: seq<char>, key: seq<int>): (sorted: seq<seq<char>>)
    requires |key| > 0 && |text| > 0 && Covers(key)
    ensures |sorted| == |key|
    ensures forall i :: 0 <= i < |key| ==> |sorted[i]| == CeilDiv(|text|, |key|)
  {
    var columns := Columns(Grid(text, |key|), |key|);
    seq(|key|, i requires 0 <= i < |key| => columns[IndexOf(key, i)])
  }

  /** `''.join(sorted_columns)`: the output of a transposition that succeeds. */
  function Transposed(text: seq<char>, key: seq<int>): (out: seq<char>)
    requires |key| > 0 && |text| > 0 && Covers(key)
    ensures |out| == CeilDiv(|text|, |key|) * |key|
  {
    ConcatLength(SortedColumns(text, key), CeilDiv(|text|, |key|));
    Concat(SortedColumns(text, key))
  }

  /**
   * `transpose_columns(text, key)`. With `K = len(key)`: `range` with step 0
   * raises when `K` is 0; `rows[-1]` raises on the empty row list of an
   * empty text; `key.index(i)` raises for the first `i` in `0 .. K - 1`
   * the key lacks, which happens exactly when the key is not a permutation.
   * Otherwise the output has one character per cell of the padded grid.
   */
  function TransposeColumns(text: seq<char>, key: seq<int>): (r: Result<seq<char>>)
    ensures |key| == 0 ==> r == Failure(RangeStepZero)
    ensures |key| > 0 && |text| == 0 ==> r == Failure(EmptyRowList)
    ensures |key| > 0 && |text| > 0 ==> (r.Success? <==> IsPermutation(key))
    ensures |key| > 0 && |text| > 0 && r.Failure? ==>
      r.error.NotInKey? && 0 <= r.error.value < |key| && r.error.value !in key
      && forall v :: 0 <= v < r.error.value ==> v in key
    ensures r.Success? ==> |r.value| == CeilDiv(|text|, |key|) * |key|
    ensures r.Success? ==> |text| <= |r.value| < |text| + |key|
  {
    var k := |key|;
    if k == 0 then Failure(RangeStepZero)
    else if |Rows(text, k)| == 0 then Failure(EmptyRowList)
    else
      var missing := FirstMissing(key, 0);
      PermutationIffCovers(key);
      if missing < k then Failure(NotInKey(missing))
      else
        CeilDivBounds(|text|, k);
        Success(Transposed(text, key))
  }

  /**
   * The closed form of the transposition: output slot `i` holds grid column
   * `key.index(i)`, so character `j` of that slot is the padded text's
   * character in row `j`, column `key.index(i)`.
   */
  lemma TransposeAt(text: seq<char>, key: seq<int>, i: nat, j: nat)
    requires |key| > 0 && |text| > 0 && Covers(key)
    requires i < |key| && j < CeilDiv(|text|, |key|)
    ensures i * CeilDiv(|text|, |key|) + j < |Transposed(text, key)|
    ensures j * |key| + IndexOf(key, i) < |Padded(text, |key|)|
    ensures Transposed(text, key)[i * CeilDiv(|text|, |key|) + j]
         == Padded(text, |key|)[j * |key| + IndexOf(key, i)]
  {
    var k := |key|;
    var rowCount := CeilDiv(|text|, k);
    var sorted := SortedColumns(text, key);
    ConcatAt(sorted, rowCount, i, j);
    assert sorted[i][j] == Columns(Grid(text, k), k)[IndexOf(key, i)][j];
    GridAt(text, k, j, IndexOf(key, i));
  }

  // ---------------------------------------------------------------------
  // untranspose_columns
  // ---------------------------------------------------------------------

  /** `[text[i * R:(i + 1) * R] for i in range(k)]` with `R = len(text) // k` */
  function Blocks(text: seq<char>, k: nat): (blocks: seq<seq<char>>)
    requires k > 0
    ensures |blocks| == k
    ensures forall i :: 0 <= i < k ==> |blocks[i]| == |text| / k
  {
    var rowCount := |text| / k;
    assert forall i :: 0 <= i < k ==> |Block(text, rowCount, i)| == rowCount by {
      forall i | 0 <= i < k ensures |Block(text, rowCount, i)| == rowCount {
        BlockLength(text, k, i);
      }
    }
    seq(k, i requires 0 <= i < k => Block(text, rowCount, i))
  }

  /** `text[i * R:(i + 1) * R]` */
  function Block(text: seq<char>, rowCount: nat, i: nat): (b: seq<char>)
    ensures |b| <= rowCount
    ensures (i + 1) * rowCount <= |text| ==> b == text[i * rowCount..i * rowCount + rowCount]
  {
    Slice(text, i * rowCount, (i + 1) * rowCount)
  }

  /** Block `i` is `R` characters long. */
  lemma BlockLength(text: seq<char>, k: nat, i: nat)
    requires k > 0 && i < k
    ensures i * (|text| / k) + |text| / k <= |text|
    ensures |Block(text, |text| / k, i)| == |text| / k
  {
    var rowCount := |text| / k;
    BlocksFit(|text|, k, i);
    assert (i + 1) * rowCount == i * rowCount + rowCount;
  }

  /** Character `j` of block `i` is character `i * R + j` of the text. */
  lemma BlockAt(text: seq<char>, k: nat, i: nat, j: nat)
    requires k > 0 && i < k && j < |text| / k
    ensures i * (|text| / k) + j < |text|
    ensures Block(text, |text| / k, i)[j] == text[i * (|text| / k) + j]
  {
    var rowCount := |text| / k;
    BlockLength(text, k, i);
    assert Block(text, rowCount, i) == text[i * rowCount..i * rowCount + rowCount];
  }

  /**
   * `rows`: row `j` is `''.join(columns[key.index(i)][j] for i in range(k))`.
   * When the text is shorter than `k` there are no rows, and `key.index` is
   * never called.
   */
  function ReadRows(text: seq<char>, key: seq<int>): (rows: seq<seq<char>>)
    requires |key| > 0 && (|text| / |key| == 0 || Covers(key))
    ensures |rows| == |text| / |key|
    ensures forall j :: 0 <= j < |rows| ==> |rows[j]| == |key|
    ensures forall j, i :: 0 <= j < |rows| && 0 <= i < |key| ==>
      rows[j][i] == Blocks(text, |key|)[IndexOf(key, i)][j]
  {
    var k := |key|;
    var rowCount := |text| / k;
    var blocks := Blocks(text, k);
    seq(rowCount, j requires 0 <= j < rowCount =>
      seq(k, i requires 0 <= i < k => blocks[IndexOf(key, i)][j]))
  }

  /** `''.join(rows)`, before `rstrip()` */
  function Unstripped(text: seq<char>, key: seq<int>): (u: seq<char>)
    requires |key| > 0 && (|text| / |key| == 0 || Covers(key))
    ensures |u| == (|text| / |key|) * |key|
  {
    ConcatLength(ReadRows(text, key), |key|);
    Concat(ReadRows(text, key))
  }

  /**
   * `untranspose_columns(text, key)`. `len(text) // K` raises when `K` is
   * 0. A length that is not a multiple of `K` is not rejected: the trailing
   * `len(text) % K` characters are ignored. `key.index(i)` raises, for the
   * first `i` the key lacks, only when there is at least one row. The
   * result is `rstrip()`ped of all trailing whitespace.
   */
  function UntransposeColumns(text: seq<char>, key: seq<int>): (r: Result<seq<char>>)
    ensures |key| == 0 ==> r == Failure(DivisionByZero)
    ensures |key| > 0 ==> (r.Failure? <==> |text| / |key| > 0 && !IsPermutation(key))
    ensures |key| > 0 && r.Failure? ==>
      r.error.NotInKey? && 0 <= r.error.value < |key| && r.error.value !in key
      && forall v :: 0 <= v < r.error.value ==> v in key
    ensures r.Success? ==> |r.value| <= |text| && (r.value == [] || !IsWhitespace(r.value[|r.value| - 1]))
  {
    var k := |key|;
    if k == 0 then Failure(DivisionByZero)
    else
      var missing := FirstMissing(key, 0);
      PermutationIffCovers(key);
      if |text| / k > 0 && missing < k then Failure(NotInKey(missing))
      else
        WholeBlocksFit(|text|, k);
        Success(RStrip(Unstripped(text, key)))
  }

  /**
   * The closed form of the untransposition: output row `j`, column `i` is
   * character `j` of block `key.index(i)`.
   */
  lemma UntransposeAt(text: seq<char>, key: seq<int>, j: nat, i: nat)
    requires |key| > 0 && Covers(key)
    requires j < |text| / |key| && i < |key|
    ensures j * |key| + i < |Unstripped(text, key)|
    ensures IndexOf(key, i) * (|text| / |key|) + j < |text|
    ensures Unstripped(text, key)[j * |key| + i] == text[IndexOf(key, i) * (|text| / |key|) + j]
  {
    var k := |key|;
    var rowCount := |text| / k;
    var x := IndexOf(key, i);
    var rows := ReadRows(text, key);
    ConcatAt(rows, k, j, i);
    assert rows[j][i] == Blocks(text, k)[x][j];
    assert Blocks(text, k)[x] == Block(text, rowCount, x);
    BlockAt(text, k, x, j);
  }

  /** A block that lies inside a prefix of the text is the same block of the prefix. */
  lemma BlockIgnoresTail(text: seq<char>, prefix: seq<char>, n: nat, rowCount: nat, x: nat)
    requires n <= |text| && prefix == text[..n] && (x + 1) * rowCount <= n
    ensures Block(text, rowCount, x) == Block(prefix, rowCount, x)
  {
    assert text[x * rowCount..x * rowCount + rowCount] == prefix[x * rowCount..x * rowCount + rowCount];
  }

  /** The rows read from a text are the rows read from its whole blocks. */
  lemma UnstrippedIgnoresTail(text: seq<char>, key: seq<int>)
    requires |key| > 0 && (|text| / |key| == 0 || Covers(key))
    ensures (|text| / |key|) * |key| <= |text|
    ensures |text[..(|text| / |key|) * |key|]| / |key| == |text| / |key|
    ensures Unstripped(text, key) == Unstripped(text[..(|text| / |key|) * |key|], key)
  {
    var k := |key|;
    var rowCount := |text| / k;
    WholeBlocksFit(|text|, k);
    DivExact(rowCount, k);
    var prefix := text[..rowCount * k];
    forall x | 0 <= x < k ensures Block(text, rowCount, x) == Block(prefix, rowCount, x) {
      MulLe(x + 1, k, rowCount);
      assert k * rowCount == rowCount * k;
      BlockIgnoresTail(text, prefix, rowCount * k, rowCount, x);
    }
    assert Blocks(text, k) == Blocks(prefix, k);
    assert ReadRows(text, key) == ReadRows(prefix, key);
  }

  /**
   * Characters past the last whole block do not affect the result, and
   * neither do they decide whether it fails.
   */
  lemma UntransposeIgnoresTail(text: seq<char>, key: seq<int>)
    requires |key| > 0
    ensures (|text| / |key|) * |key| <= |text|
    ensures UntransposeColumns(text, key) == UntransposeColumns(text[..(|text| / |key|) * |key|], key)
  {
    PermutationIffCovers(key);
    WholeBlocksFit(|text|, |key|);
    DivExact(|text| / |key|, |key|);
    if |text| / |key| == 0 || Covers(key) {
      UnstrippedIgnoresTail(text, key);
    }
  }

  // ---------------------------------------------------------------------
  // The two together
  // ---------------------------------------------------------------------

  /**
   * One cell of the round trip: untransposing with the argsort reads back
   * the character of the padded text that transposing put there. The
   * `Covers` facts and the two lengths follow from `IsPermutation(key)`;
   * they are passed in, as `UnstrippedTransposed` establishes them once,
   * so that this per-cell proof does no division of its own.
   */
  lemma RoundTripCell(text: seq<char>, key: seq<int>, j: nat, i: nat)
    requires |text| > 0 && |key| > 0 && IsPermutation(key) && Covers(key) && Covers(ArgSort(key))
    requires |Transposed(text, key)| / |key| == CeilDiv(|text|, |key|)
    requires |Unstripped(Transposed(text, key), ArgSort(key))| == CeilDiv(|text|, |key|) * |key|
    requires j < CeilDiv(|text|, |key|) && i < |key|
    ensures Cell(Unstripped(Transposed(text, key), ArgSort(key)), CeilDiv(|text|, |key|), |key|, j, i)
         == Cell(Padded(text, |key|), CeilDiv(|text|, |key|), |key|, j, i)
  {
    UntransposeAt(Transposed(text, key), ArgSort(key), j, i);
    IndexOfArgSort(key, i);
    TransposeAt(text, key, key[i], j);
    IndexOfPermutation(key, i);
  }

  /**
   * For a non-empty text and a permutation key, untransposing the
   * transposed text with the argsort of the key rebuilds the padded text.
   */
  lemma UnstrippedTransposed(text: seq<char>, key: seq<int>)
    requires |text| > 0 && |key| > 0 && IsPermutation(key)
    ensures Covers(key) && Covers(ArgSort(key))
    ensures Unstripped(Transposed(text, key), ArgSort(key)) == Padded(text, |key|)
  {
    var rowCount := CeilDiv(|text|, |key|);
    PermutationIffCovers(key);
    PermutationIffCovers(ArgSort(key));
    DivExact(rowCount, |key|);
    assert |Unstripped(Transposed(text, key), ArgSort(key))| == rowCount * |key|;
    forall j, i | 0 <= j < rowCount && 0 <= i < |key|
      ensures Cell(Unstripped(Transposed(text, key), ArgSort(key)), rowCount, |key|, j, i)
           == Cell(Padded(text, |key|), rowCount, |key|, j, i)
    {
      RoundTripCell(text, key, j, i);
    }
    CellsEqual(Unstripped(Transposed(text, key), ArgSort(key)), Padded(text, |key|), rowCount, |key|);
  }

  /**
   * Transposing a non-empty text with a permutation key succeeds, and
   * untransposing the result with the argsort of the key gives back the
   * text with its trailing whitespace stripped.
   */
  lemma TransposeRoundTrip(text: seq<char>, key: seq<int>)
    requires |text| > 0 && |key| > 0 && IsPermutation(key)
    ensures Covers(key) && TransposeColumns(text, key) == Success(Transposed(text, key))
    ensures UntransposeColumns(Transposed(text, key), ArgSort(key)) == Success(RStrip(text))
  {
    UnstrippedTransposed(text, key);
    RStripAppendWhitespace(text, Spaces(CeilDiv(|text|, |key|) * |key| - |text|));
  }

  // ---------------------------------------------------------------------
  // Worked cases
  // ---------------------------------------------------------------------

  /**
   * One padded row `wxyz` with key `[3, 0, 1, 2]`: output column `i` is
   * grid column `key.index(i)`, that is columns 1, 2, 3, 0.
   */
  lemma TransposeExample()
    ensures TransposeColumns("wxyz", [3, 0, 1, 2]) == Success("xyzw")
  {
    var key := [3, 0, 1, 2];
    PermutationIffCovers(key);
    assert IsPermutation(key);
    TransposedExample(key);
  }

  /**
   * The output of that case, read off the closed form slot by slot. The
   * key is a parameter fixed by `requires` rather than a literal in the
   * body, which keeps the proof obligations small.
   */
  lemma TransposedExample(key: seq<int>)
    requires key == [3, 0, 1, 2] && Covers(key)
    ensures Transposed("wxyz", key) == "xyzw"
  {
    var t := Transposed("wxyz", key);
    assert |t| == 4;
    TransposeAt("wxyz", key, 0, 0);
    TransposeAt("wxyz", key, 1, 0);
    TransposeAt("wxyz", key, 2, 0);
    TransposeAt("wxyz", key, 3, 0);
    assert IndexOf(key, 0) == 1;
    assert IndexOf(key, 1) == 2;
    assert IndexOf(key, 2) == 3;
    assert IndexOf(key, 3) == 0;
    assert t == "xyzw";
  }

  /** A key with a repeated value fails on the first value it lacks. */
  lemma TransposeRejectsRepeatedKey()
    ensures TransposeColumns("abc", [0, 0, 1]) == Failure(NotInKey(2))
  {
    assert FirstMissing([0, 0, 1], 0) == 2 by {
      assert 0 in [0, 0, 1];
      assert 1 in [0, 0, 1];
    }
  }

  /** A length that is not a multiple of the key length loses its tail. */
  lemma UntransposeDropsTail()
    ensures UntransposeColumns("abc", [0, 1]) == Success("ab")
  {
    var key := [0, 1];
    PermutationIffCovers(key);
    assert IsPermutation(key);
    UntransposeAt("abc", key, 0, 0);
    UntransposeAt("abc", key, 0, 1);
    assert IndexOf(key, 0) == 0;
    assert IndexOf(key, 1) == 1;
    assert Unstripped("abc", key) == "ab";
  }
}
