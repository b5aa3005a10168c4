/**
 * `generate` of src/sudoku.js: the bands of placements are transposed into block columns,
 * every block column is ordered by the column search, and the three ordered columns are
 * read out row by row into 81 digits. The result, when the searches succeed, is a solved grid.
 */
module Generator {
  import opened Common
  import opened Collections
  import opened Permutations
  import opened Grid
  import opened BlockRows
  import opened ColumnSearch

  predicate Rectangular(arr: seq<seq<seq<Placement>>>) {
    |arr| > 0 && forall k :: 0 <= k < |arr| ==> |arr[k]| == |arr[0]|
  }

  /** transpose: entry i of the result gathers entry i of every row, in order. */
  function Transpose(arr: seq<seq<seq<Placement>>>): (r: seq<seq<seq<Placement>>>)
    requires Rectangular(arr)
    ensures |r| == |arr[0]| && forall i :: 0 <= i < |r| ==> |r[i]| == |arr|
  {
    seq(|arr[0]|, i requires 0 <= i < |arr[0]| => seq(|arr|, k requires 0 <= k < |arr| => arr[k][i]))
  }

  /** Transposing a rectangular array with non-empty rows twice gives it back. */
  lemma TransposeTwice(arr: seq<seq<seq<Placement>>>)
    requires Rectangular(arr) && |arr[0]| > 0
    ensures Rectangular(Transpose(arr)) && Transpose(Transpose(arr)) == arr
  {
    var t := Transpose(arr);
    var tt := Transpose(t);
    assert |tt| == |arr|;
    forall k | 0 <= k < |arr| ensures tt[k] == arr[k] {
      assert |tt[k]| == |arr[k]|;
      forall i | 0 <= i < |arr[k]| ensures tt[k][i] == arr[k][i] {
        assert tt[k][i] == t[i][k];
      }
    }
  }

  /** `block.filter(partial => partial.y === y).map(partial => partial.num)`: the digits in row y, in order. */
  function NumsAt(block: seq<Placement>, y: int): (r: seq<int>)
    ensures |r| <= |block|
    ensures forall x :: x in r ==> Placement(x, y) in block
    decreases |block|
  {
    if |block| == 0 then []
    else
      var last := block[|block| - 1];
      NumsAt(block[..|block| - 1], y) + (if last.y == y then [last.num] else [])
  }

  /** A block whose entries list the digits 1, 2, 3, … in order, as every stack does. */
  predicate Numbered(block: seq<Placement>) {
    forall k :: 0 <= k < |block| ==> block[k].num == k + 1
  }

  /** The digits in row y of a numbered block are those whose placement names row y. */
  lemma {:induction false} NumsAtMembers(block: seq<Placement>, y: int, x: int)
    requires Numbered(block)
    ensures x in NumsAt(block, y) <==> 1 <= x <= |block| && block[x - 1].y == y
    decreases |block|
  {
    if |block| > 0 {
      NumsAtMembers(block[..|block| - 1], y, x);
    }
  }

  /** Row y of a block lists as many digits as the block has placements in row y. */
  lemma {:induction false} NumsAtLength(block: seq<Placement>, y: int)
    ensures |NumsAt(block, y)| == Count(block, y)
    decreases |block|
  {
    if |block| > 0 {
      var init := block[..|block| - 1];
      NumsAtLength(init, y);
      CountPush(init, block[|block| - 1], y);
      assert init + [block[|block| - 1]] == block;
    }
  }

  lemma {:induction false} NumsAtDistinct(block: seq<Placement>, y: int)
    requires Numbered(block)
    ensures NoDuplicates(NumsAt(block, y))
    decreases |block|
  {
    if |block| > 0 {
      var init := block[..|block| - 1];
      NumsAtDistinct(init, y);
      NumsAtMembers(init, y, |block|);
    }
  }

  /** A block as a band leaves it: digits 1..9 in order, three in each block row. */
  predicate FullBlock(block: seq<Placement>) {
    |block| == 9 && Numbered(block) && Count(block, 0) == 3 && Count(block, 1) == 3 && Count(block, 2) == 3
  }

  lemma RowTriple(block: seq<Placement>, y: int)
    requires FullBlock(block) && 0 <= y < 3
    ensures |NumsAt(block, y)| == 3 && Distinct3(NumsAt(block, y))
  {
    NumsAtLength(block, y);
    NumsAtDistinct(block, y);
    assert Count(block, y) == 3;
    TripleDistinct(NumsAt(block, y));
  }

  lemma TripleDistinct(t: seq<int>)
    requires |t| == 3 && NoDuplicates(t)
    ensures Distinct3(t)
  {
  }

  /** The block column handed to getValidColumnPermutation: three full blocks, top to bottom. */
  predicate BlockColumn(blocks: seq<seq<Placement>>) {
    |blocks| == 3 && forall b :: 0 <= b < 3 ==> FullBlock(blocks[b])
  }

  /**
   * allPermutations of getValidColumnPermutation: for block b and row y, in that order, the six
   * orderings of the digits in row y of block b; entry 3 * b + y.
   */
  function AllPermutations(blocks: seq<seq<Placement>>): (ppr: Orderings)
    requires BlockColumn(blocks)
    ensures |ppr| == 9 && WellFormed(ppr)
    ensures forall r :: 0 <= r < 9 ==> |ppr[r]| == 6
    ensures forall r, k :: 0 <= r < 9 && 0 <= k < |ppr[r]| ==> |ppr[r][k]| == 3
  {
    RowsAreTriples(blocks);
    seq(9, r requires 0 <= r < 9 => GetPermutations(NumsAt(blocks[r / 3], r % 3)))
  }

  lemma RowsAreTriples(blocks: seq<seq<Placement>>)
    requires BlockColumn(blocks)
    ensures forall r :: 0 <= r < 9 ==> |NumsAt(blocks[r / 3], r % 3)| == 3
  {
    forall r | 0 <= r < 9 ensures |NumsAt(blocks[r / 3], r % 3)| == 3 {
      RowTriple(blocks[r / 3], r % 3);
    }
  }

  lemma FirstOrdering(blocks: seq<seq<Placement>>, r: int)
    requires BlockColumn(blocks) && 0 <= r < 3
    ensures AllPermutations(blocks)[r][0] == NumsAt(blocks[0], r)
  {
    RowTriple(blocks[0], r);
  }

  /** The three rows of the top block hold different digits, so their first orderings fit together. */
  lemma TopRowsCompatible(blocks: seq<seq<Placement>>)
    requires BlockColumn(blocks)
    ensures forall r1, r2, c :: 0 <= r1 < r2 < 3 && 0 <= c < 3 ==>
      AllPermutations(blocks)[r1][0][c] != AllPermutations(blocks)[r2][0][c]
  {
    var ppr := AllPermutations(blocks);
    forall r1, r2, c | 0 <= r1 < r2 < 3 && 0 <= c < 3 ensures ppr[r1][0][c] != ppr[r2][0][c] {
      FirstOrdering(blocks, r1);
      FirstOrdering(blocks, r2);
      if ppr[r1][0][c] == ppr[r2][0][c] {
        RowsOfBlockDisjoint(blocks[0], r1, r2, ppr[r1][0][c]);
      }
    }
  }

  /**
   * An ordered block column: nine triples, entry 3 * b + y a reordering of row y of block b,
   * no digit repeated within a column.
   */
  predicate Ordered(blocks: seq<seq<Placement>>, col: seq<seq<int>>)
    requires BlockColumn(blocks)
  {
    |col| == 9 &&
    (forall r :: 0 <= r < 9 ==> |col[r]| == 3 && Distinct3(col[r])) &&
    (forall r, c :: 0 <= r < 9 && 0 <= c < 3 ==> col[r][c] in NumsAt(blocks[r / 3], r % 3)) &&
    ColumnsDistinct(col)
  }

  /** getValidColumnPermutation: the column search run on the orderings of a block column. */
  method GetValidColumnPermutation(blocks: seq<seq<Placement>>) returns (col: Option<seq<seq<int>>>)
    requires BlockColumn(blocks)
    ensures col.Some? ==> Ordered(blocks, col.value)
    ensures col.None? ==> forall a :: InRange(AllPermutations(blocks), a) ==>
      !ColumnsDistinct(Picked(AllPermutations(blocks), a))
  {
    var ppr := AllPermutations(blocks);
    TopRowsCompatible(blocks);
    col := GetValidPermutation(ppr);
    if col.Some? {
      PickedRowsAreOrderings(blocks, col.value);
    }
  }

  lemma PickedRowsAreOrderings(blocks: seq<seq<Placement>>, col: seq<seq<int>>)
    requires BlockColumn(blocks)
    requires |col| == 9 && forall r :: 0 <= r < 9 ==> |col[r]| == 3 && col[r] in AllPermutations(blocks)[r]
    requires ColumnsDistinct(col)
    ensures Ordered(blocks, col)
  {
    var ppr := AllPermutations(blocks);
    forall r | 0 <= r < 9 ensures |col[r]| == 3 && Distinct3(col[r]) && forall x :: x in col[r] <==> x in NumsAt(blocks[r / 3], r % 3) {
      RowTriple(blocks[r / 3], r % 3);
      PermutationMembers(NumsAt(blocks[r / 3], r % 3), col[r]);
    }
  }

  /** The inner reduce at line 10: row i of the grid, the i-th triple of each column in turn. */
  function GridRow(cols: seq<seq<seq<int>>>, i: int): (r: seq<int>)
    requires |cols| == 3 && forall j :: 0 <= j < 3 ==> |cols[j]| == 9
    requires 0 <= i < 9
    ensures Triples(cols) ==> |r| == 9 && forall j, c :: 0 <= j < 3 && 0 <= c < 3 ==> r[3 * j + c] == cols[j][i][c]
  {
    cols[0][i] + cols[1][i] + cols[2][i]
  }

  /** The outer reduce at line 10: rows 0..n-1 of the grid, concatenated. */
  function Flatten(cols: seq<seq<seq<int>>>, n: int): (r: seq<int>)
    requires |cols| == 3 && forall j :: 0 <= j < 3 ==> |cols[j]| == 9
    requires 0 <= n <= 9
    ensures Triples(cols) ==> |r| == 9 * n
  {
    if n == 0 then [] else Flatten(cols, n - 1) + GridRow(cols, n - 1)
  }

  predicate Triples(cols: seq<seq<seq<int>>>) {
    |cols| == 3 && forall j :: 0 <= j < 3 ==> |cols[j]| == 9 && forall r :: 0 <= r < 9 ==> |cols[j][r]| == 3
  }

  /** Cell 9 * i + 3 * j + c of the flattened grid is digit c of triple i of column j. */
  lemma {:induction false} FlattenIndex(cols: seq<seq<seq<int>>>, n: int)
    requires Triples(cols) && 0 <= n <= 9
    ensures |Flatten(cols, n)| == 9 * n
    ensures forall i, j, c :: 0 <= i < n && 0 <= j < 3 && 0 <= c < 3 ==> Flatten(cols, n)[9 * i + 3 * j + c] == cols[j][i][c]
  {
    if n > 0 {
      FlattenIndex(cols, n - 1);
      assert GridRow(cols, n - 1) == cols[0][n - 1] + cols[1][n - 1] + cols[2][n - 1];
    }
  }

  /** The coordinates of a cell: triple row R, column j, position c. */
  lemma CellCoordinates(i: int)
    requires 0 <= i < 81
    ensures i == 9 * Row(i) + 3 * ((i % 9) / 3) + i % 3
    ensures Column(i) == 3 * ((i % 9) / 3) + i % 3
    ensures BlockIndex(i) == (Row(i) / 3) * 3 + (i % 9) / 3
  {
  }

  /** The digits of the three ordered columns, read as a grid. */
  function CellOf(cols: seq<seq<seq<int>>>, i: int): int
    requires Triples(cols) && 0 <= i < 81
  {
    cols[(i % 9) / 3][i / 9][i % 3]
  }

  /** Every band assigns a digit three different rows in its three blocks. */
  lemma BandRowsDiffer(band: seq<seq<Placement>>, j1: int, j2: int, x: int, y: int)
    requires Band(band) && 0 <= j1 < 3 && 0 <= j2 < 3 && j1 != j2
    requires x in NumsAt(band[j1], y)
    ensures x !in NumsAt(band[j2], y)
  {
    assert Numbered(band[j1]) && Numbered(band[j2]);
    NumsAtMembers(band[j1], y, x);
    NumsAtMembers(band[j2], y, x);
    assert DistinctRows(band[0][x - 1].y, band[1][x - 1].y, band[2][x - 1].y);
  }

  lemma RowsOfBlockDisjoint(block: seq<Placement>, y1: int, y2: int, x: int)
    requires Numbered(block) && y1 != y2
    requires x in NumsAt(block, y1)
    ensures x !in NumsAt(block, y2)
  {
    NumsAtMembers(block, y1, x);
    NumsAtMembers(block, y2, x);
  }

  /** The block column j of three bands: block j of each band, top to bottom. */
  lemma BandColumn(bands: seq<seq<seq<Placement>>>, j: int)
    requires |bands| == 3 && (forall b :: 0 <= b < 3 ==> Band(bands[b])) && 0 <= j < 3
    ensures Rectangular(bands) && |Transpose(bands)| == 3
    ensures BlockColumn(Transpose(bands)[j])
    ensures forall b :: 0 <= b < 3 ==> Transpose(bands)[j][b] == bands[b][j]
  {
    var column := Transpose(bands)[j];
    forall b | 0 <= b < 3 ensures FullBlock(column[b]) {
      assert column[b] == bands[b][j];
      assert Numbered(bands[b][j]);
    }
  }

  /**
   * What the proof of a solved grid needs from the bands and the ordered columns: every digit in
   * triple R of column j lies in row R % 3 of block j of band R / 3, every triple repeats no
   * digit, and every column of triples repeats no digit.
   */
  predicate Layout(bands: seq<seq<seq<Placement>>>, cols: seq<seq<seq<int>>>) {
    |bands| == 3 && (forall b :: 0 <= b < 3 ==> Band(bands[b])) && Triples(cols) &&
    (forall j, r, c :: 0 <= j < 3 && 0 <= r < 9 && 0 <= c < 3 ==> cols[j][r][c] in NumsAt(bands[r / 3][j], r % 3)) &&
    (forall j, r :: 0 <= j < 3 && 0 <= r < 9 ==> Distinct3(cols[j][r])) &&
    (forall j :: 0 <= j < 3 ==> ColumnsDistinct(cols[j]))
  }

  lemma OrderedColumnsLayout(bands: seq<seq<seq<Placement>>>, cols: seq<seq<seq<int>>>)
    requires |bands| == 3 && (forall b :: 0 <= b < 3 ==> Band(bands[b])) && |cols| == 3
    requires Rectangular(bands) && |bands[0]| == 3
    requires forall j :: 0 <= j < 3 ==> BlockColumn(Transpose(bands)[j]) && Ordered(Transpose(bands)[j], cols[j])
    ensures Layout(bands, cols)
  {
    forall j, r, c | 0 <= j < 3 && 0 <= r < 9 && 0 <= c < 3 ensures cols[j][r][c] in NumsAt(bands[r / 3][j], r % 3) {
      BandColumn(bands, j);
    }
  }

  /** Every digit of the grid is one of 1..9. */
  lemma DigitInRange(bands: seq<seq<seq<Placement>>>, cols: seq<seq<seq<int>>>, j: int, r: int, c: int)
    requires Layout(bands, cols) && 0 <= j < 3 && 0 <= r < 9 && 0 <= c < 3
    ensures 1 <= cols[j][r][c] <= 9
  {
    var block := bands[r / 3][j];
    assert Numbered(block) && |block| == 9;
    NumsAtMembers(block, r % 3, cols[j][r][c]);
  }

  /** Two cells of one grid row differ: within a triple by Distinct3, across blocks by the band. */
  lemma SameRowDiffer(bands: seq<seq<seq<Placement>>>, cols: seq<seq<seq<int>>>, r: int, j1: int, c1: int, j2: int, c2: int)
    requires Layout(bands, cols) && 0 <= r < 9
    requires 0 <= j1 < 3 && 0 <= c1 < 3 && 0 <= j2 < 3 && 0 <= c2 < 3 && (j1 != j2 || c1 != c2)
    ensures cols[j1][r][c1] != cols[j2][r][c2]
  {
    if j1 != j2 {
      BandRowsDiffer(bands[r / 3], j1, j2, cols[j1][r][c1], r % 3);
    }
  }

  /** Two cells of one block in different rows differ: the rows of a block are disjoint. */
  lemma SameBlockDiffer(bands: seq<seq<seq<Placement>>>, cols: seq<seq<seq<int>>>, r1: int, r2: int, j: int, c1: int, c2: int)
    requires Layout(bands, cols) && 0 <= r1 < 9 && 0 <= r2 < 9 && r1 != r2 && r1 / 3 == r2 / 3
    requires 0 <= j < 3 && 0 <= c1 < 3 && 0 <= c2 < 3
    ensures cols[j][r1][c1] != cols[j][r2][c2]
  {
    var block := bands[r1 / 3][j];
    assert Numbered(block);
    RowsOfBlockDisjoint(block, r1 % 3, r2 % 3, cols[j][r1][c1]);
  }

  /** Cell i of the flattened grid, located in its triple. */
  lemma FlatCell(cols: seq<seq<seq<int>>>, i: int)
    requires Triples(cols) && 0 <= i < 81
    ensures |Flatten(cols, 9)| == 81 && Flatten(cols, 9)[i] == CellOf(cols, i)
  {
    FlattenIndex(cols, 9);
    CellCoordinates(i);
  }

  lemma PeersDiffer(bands: seq<seq<seq<Placement>>>, cols: seq<seq<seq<int>>>, i1: int, i2: int)
    requires Layout(bands, cols)
    requires 0 <= i1 < 81 && 0 <= i2 < 81 && i1 != i2 && Peers(i1, i2)
    ensures CellOf(cols, i1) != CellOf(cols, i2)
  {
    CellCoordinates(i1);
    CellCoordinates(i2);
    var r1, j1, c1 := Row(i1), (i1 % 9) / 3, i1 % 3;
    var r2, j2, c2 := Row(i2), (i2 % 9) / 3, i2 % 3;
    if r1 == r2 {
      SameRowDiffer(bands, cols, r1, j1, c1, j2, c2);
    } else if Column(i1) == Column(i2) {
      assert j1 == j2 && c1 == c2;
      assert ColumnsDistinct(cols[j1]);
    } else {
      assert r1 / 3 == r2 / 3 && j1 == j2;
      SameBlockDiffer(bands, cols, r1, r2, j1, c1, c2);
    }
  }

  /** The flattened grid of a layout is a solved Sudoku. */
  lemma LayoutIsSolved(bands: seq<seq<seq<Placement>>>, cols: seq<seq<seq<int>>>)
    requires Layout(bands, cols)
    ensures ValidGrid(Flatten(cols, 9))
  {
    LayoutDigits(bands, cols);
    LayoutPeers(bands, cols);
  }

  lemma LayoutDigits(bands: seq<seq<seq<Placement>>>, cols: seq<seq<seq<int>>>)
    requires Layout(bands, cols)
    ensures |Flatten(cols, 9)| == 81 && forall i :: 0 <= i < 81 ==> 1 <= Flatten(cols, 9)[i] <= 9
  {
    FlatCell(cols, 0);
    forall i | 0 <= i < 81 ensures 1 <= Flatten(cols, 9)[i] <= 9 {
      FlatCell(cols, i);
      DigitInRange(bands, cols, (i % 9) / 3, i / 9, i % 3);
    }
  }

  lemma LayoutPeers(bands: seq<seq<seq<Placement>>>, cols: seq<seq<seq<int>>>)
    requires Layout(bands, cols)
    ensures |Flatten(cols, 9)| == 81
    ensures forall i1, i2 :: 0 <= i1 < 81 && 0 <= i2 < 81 && i1 != i2 && Peers(i1, i2) ==> Flatten(cols, 9)[i1] != Flatten(cols, 9)[i2]
  {
    FlatCell(cols, 0);
    forall i1, i2 | 0 <= i1 < 81 && 0 <= i2 < 81 && i1 != i2 && Peers(i1, i2) ensures Flatten(cols, 9)[i1] != Flatten(cols, 9)[i2] {
      FlatCell(cols, i1);
      FlatCell(cols, i2);
      PeersDiffer(bands, cols, i1, i2);
    }
  }

  /**
   * generate: draw the bands, transpose them into block columns, order each block column,
   * and read the grid out row by row. A block column the search cannot order ends the run
   * (in the source, a thrown TypeError); otherwise the grid is solved.
   */
  method Generate(rand: RandomStream) returns (grid: Option<seq<int>>)
    ensures grid.Some? ==> ValidGrid(grid.value)
  {
    var bands := PartialBlockRows(rand);
    BandColumn(bands, 0);
    var blockColumns := Transpose(bands);
    var cols: seq<seq<seq<int>>> := [];
    for j := 0 to 3
      invariant |cols| == j
      invariant forall k :: 0 <= k < j ==> BlockColumn(blockColumns[k]) && Ordered(blockColumns[k], cols[k])
    {
      BandColumn(bands, j);
      var col := GetValidColumnPermutation(blockColumns[j]);
      if col.None? {
        return None;
      }
      cols := cols + [col.value];
    }
    OrderedColumnsLayout(bands, cols);
    LayoutIsSolved(bands, cols);
    grid := Some(Flatten(cols, 9));
  }
}
