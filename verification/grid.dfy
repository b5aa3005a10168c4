/** The 81-cell row-major grid shared by the generator, the oracle and the selector. */
module Grid {
  import opened Collections

  const CellCount := 81

  /** The row of a cell, `Math.floor(index / 9)`. */
  function Row(i: int): int requires 0 <= i < 81 { i / 9 }

  /** The column of a cell, `index % 9`. */
  function Column(i: int): int requires 0 <= i < 81 { i % 9 }

  /** getBlockIndex: the 3x3 block of a cell, numbered row-major. */
  function BlockIndex(i: int): (b: int)
    requires 0 <= i < 81
    ensures 0 <= b < 9
    ensures b == (Row(i) / 3) * 3 + Column(i) / 3
  {
    BlockArithmetic(i);
    (i / 3) % 3 + (i / 27) * 3
  }

  /** Writing i as 27a + 9b + 3c + d: the block column is c, the band is a. */
  lemma BlockArithmetic(i: int)
    requires 0 <= i < 81
    ensures (i / 3) % 3 == (i % 9) / 3 && (i / 9) / 3 == i / 27 && 0 <= i / 27 < 3
  {
    var a, r1 := i / 27, i % 27;
    var b, r2 := r1 / 9, r1 % 9;
    var c, d := r2 / 3, r2 % 3;
    assert i == 27 * a + 9 * b + 3 * c + d;
    DivModNine(3 * a + b, r2);
    DivModThree(9 * a + 3 * b + c, d);
    DivModThree(3 * a + b, c);
    DivModThree(a, b);
  }

  /** Two cells constrain each other when they share a row, a column or a block. */
  predicate Peers(i: int, j: int)
    requires 0 <= i < 81 && 0 <= j < 81
  {
    Row(i) == Row(j) || Column(i) == Column(j) || BlockIndex(i) == BlockIndex(j)
  }

  /** A solved grid: 81 digits 1..9 and no digit repeated among peers. */
  predicate ValidGrid(g: seq<int>) {
    |g| == CellCount &&
    (forall i :: 0 <= i < CellCount ==> 1 <= g[i] <= 9) &&
    (forall i, j :: 0 <= i < CellCount && 0 <= j < CellCount && i != j && Peers(i, j) ==> g[i] != g[j])
  }

  lemma DivModNine(q: int, r: int)
    requires 0 <= r < 9
    ensures (q * 9 + r) / 9 == q && (q * 9 + r) % 9 == r
  {
  }

  lemma DivModThree(q: int, r: int)
    requires 0 <= r < 3
    ensures (q * 3 + r) / 3 == q && (q * 3 + r) % 3 == r
  {
  }

  /** The k-th cell (0..8, row-major) of block b. */
  function BlockCell(b: int, k: int): (i: int)
    requires 0 <= b < 9 && 0 <= k < 9
    ensures 0 <= i < 81 && BlockIndex(i) == b
    ensures Row(i) == (b / 3) * 3 + k / 3 && Column(i) == (b % 3) * 3 + k % 3
  {
    var row, col := (b / 3) * 3 + k / 3, (b % 3) * 3 + k % 3;
    DivModNine(row, col);
    DivModThree(b / 3, k / 3);
    DivModThree(b % 3, k % 3);
    row * 9 + col
  }

  /** In a valid grid every row holds each digit 1..9; it holds it once since its cells are peers. */
  lemma RowHoldsEveryDigit(g: seq<int>, n: int, d: int)
    requires ValidGrid(g) && 0 <= n < 9 && 1 <= d <= 9
    ensures exists i :: 0 <= i < 81 && Row(i) == n && g[i] == d
  {
    var row := seq(9, c requires 0 <= c < 9 => g[n * 9 + c]);
    forall a, b | 0 <= a < b < 9 ensures row[a] != row[b] {
      DivModNine(n, a);
      DivModNine(n, b);
    }
    NineDistinctDigitsCover(row, d);
    var c :| 0 <= c < 9 && row[c] == d;
    DivModNine(n, c);
  }

  /** In a valid grid every column holds each digit 1..9. */
  lemma ColumnHoldsEveryDigit(g: seq<int>, n: int, d: int)
    requires ValidGrid(g) && 0 <= n < 9 && 1 <= d <= 9
    ensures exists i :: 0 <= i < 81 && Column(i) == n && g[i] == d
  {
    var col := seq(9, r requires 0 <= r < 9 => g[r * 9 + n]);
    forall a, b | 0 <= a < b < 9 ensures col[a] != col[b] {
      DivModNine(a, n);
      DivModNine(b, n);
    }
    NineDistinctDigitsCover(col, d);
    var r :| 0 <= r < 9 && col[r] == d;
    DivModNine(r, n);
  }

  /** In a valid grid every block holds each digit 1..9. */
  lemma BlockHoldsEveryDigit(g: seq<int>, n: int, d: int)
    requires ValidGrid(g) && 0 <= n < 9 && 1 <= d <= 9
    ensures exists i :: 0 <= i < 81 && BlockIndex(i) == n && g[i] == d
  {
    var block := seq(9, k requires 0 <= k < 9 => g[BlockCell(n, k)]);
    forall a, b | 0 <= a < b < 9 ensures block[a] != block[b] {
      assert BlockCell(n, a) != BlockCell(n, b);
    }
    NineDistinctDigitsCover(block, d);
    var k :| 0 <= k < 9 && block[k] == d;
    assert g[BlockCell(n, k)] == d;
  }
}
