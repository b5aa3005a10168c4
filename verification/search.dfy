/**
 * `getValidPermutation` of src/sudoku.js: every row of a block column offers some orderings of
 * its three digits, and the search picks one ordering per row so that no digit repeats within
 * any of the three columns. The choice is an odometer (`activePerms`) advanced by
 * `rotateNextPerm`, which backtracks with a carry when a row runs out of orderings.
 */
module ColumnSearch {
  import opened Common
  import opened Collections

  type Orderings = seq<seq<seq<int>>>

  /** permutationsPerRow: at least three rows, each with some orderings, each ordering a triple. */
  predicate WellFormed(ppr: Orderings) {
    |ppr| >= 3 &&
    (forall r :: 0 <= r < |ppr| ==> |ppr[r]| > 0) &&
    (forall r, p :: 0 <= r < |ppr| && 0 <= p < |ppr[r]| ==> |ppr[r][p]| == 3)
  }

  /** A state of activePerms: one ordering index per row, each in range. */
  predicate InRange(ppr: Orderings, a: seq<nat>) {
    |a| == |ppr| && forall r :: 0 <= r < |a| ==> a[r] < |ppr[r]|
  }

  /** The orderings chosen by a, row by row: `ppr.map((row, i) => row[activePerms[i]])`. */
  function Picked(ppr: Orderings, a: seq<nat>): (rows: seq<seq<int>>)
    requires InRange(ppr, a)
    ensures |rows| == |ppr| && forall k :: 0 <= k < |ppr| ==> rows[k] in ppr[k]
  {
    seq(|ppr|, k requires 0 <= k < |ppr| => ppr[k][a[k]])
  }

  /** Triples that repeat no digit within any of the three columns. */
  predicate ColumnsDistinct(rows: seq<seq<int>>)
    requires forall k :: 0 <= k < |rows| ==> |rows[k]| == 3
  {
    forall r1, r2, c :: 0 <= r1 < r2 < |rows| && 0 <= c < 3 ==> rows[r1][c] != rows[r2][c]
  }

  /** The chosen orderings of rows 0..n-1 repeat no digit within any column. */
  predicate PrefixValid(ppr: Orderings, a: seq<nat>, n: int)
    requires WellFormed(ppr) && InRange(ppr, a) && 0 <= n <= |ppr|
  {
    forall r1, r2, c :: 0 <= r1 < r2 < n && 0 <= c < 3 ==> ppr[r1][a[r1]][c] != ppr[r2][a[r2]][c]
  }

  lemma PrefixValidIsColumnsDistinct(ppr: Orderings, a: seq<nat>)
    requires WellFormed(ppr) && InRange(ppr, a)
    ensures PrefixValid(ppr, a, |ppr|) <==> ColumnsDistinct(Picked(ppr, a))
  {
    var rows := Picked(ppr, a);
    if ColumnsDistinct(rows) {
      forall r1, r2, c | 0 <= r1 < r2 < |ppr| && 0 <= c < 3 ensures ppr[r1][a[r1]][c] != ppr[r2][a[r2]][c] {
        assert rows[r1] == ppr[r1][a[r1]] && rows[r2] == ppr[r2][a[r2]];
      }
    }
  }

  /** Column c of the first n chosen orderings, top to bottom. */
  function ColumnOf(ppr: Orderings, a: seq<nat>, n: int, c: int): seq<int>
    requires WellFormed(ppr) && InRange(ppr, a) && 0 <= n <= |ppr| && 0 <= c < 3
  {
    seq(n, r requires 0 <= r < n => ppr[r][a[r]][c])
  }

  lemma PrefixValidIsDistinctColumns(ppr: Orderings, a: seq<nat>, n: int)
    requires WellFormed(ppr) && InRange(ppr, a) && 0 <= n <= |ppr|
    ensures PrefixValid(ppr, a, n) <==> forall c :: 0 <= c < 3 ==> NoDuplicates(ColumnOf(ppr, a, n, c))
  {
    if !PrefixValid(ppr, a, n) {
      var r1, r2, c :| 0 <= r1 < r2 < n && 0 <= c < 3 && ppr[r1][a[r1]][c] == ppr[r2][a[r2]][c];
      assert ColumnOf(ppr, a, n, c)[r1] == ColumnOf(ppr, a, n, c)[r2];
    } else {
      forall c | 0 <= c < 3 ensures NoDuplicates(ColumnOf(ppr, a, n, c)) {
        var col := ColumnOf(ppr, a, n, c);
        forall i, j | 0 <= i < j < |col| ensures col[i] != col[j] {
          assert col[i] == ppr[i][a[i]][c] && col[j] == ppr[j][a[j]][c];
        }
      }
    }
  }

  lemma ColumnOfStep(ppr: Orderings, a: seq<nat>, n: int, c: int)
    requires WellFormed(ppr) && InRange(ppr, a) && 0 <= n < |ppr| && 0 <= c < 3
    ensures multiset(ColumnOf(ppr, a, n + 1, c)) == multiset(ColumnOf(ppr, a, n, c)) + multiset{ppr[n][a[n]][c]}
  {
    assert ColumnOf(ppr, a, n + 1, c) == ColumnOf(ppr, a, n, c) + [ppr[n][a[n]][c]];
  }

  /**
   * checkColsUntilCurrentRow: tallies, per column, how often each digit occurs in rows
   * 0..row, and accepts when every tally is exactly one.
   */
  method CheckColsUntilCurrentRow(ppr: Orderings, activePerms: array<nat>, row: nat) returns (ok: bool)
    requires WellFormed(ppr) && InRange(ppr, activePerms[..]) && row < |ppr|
    ensures ok <==> PrefixValid(ppr, activePerms[..], row + 1)
  {
    ghost var a := activePerms[..];
    var stats: seq<multiset<int>> := [multiset{}, multiset{}, multiset{}];
    for r := 0 to row + 1
      invariant |stats| == 3
      invariant forall c :: 0 <= c < 3 ==> stats[c] == multiset(ColumnOf(ppr, a, r, c))
    {
      var perm := ppr[r][activePerms[r]];
      for i := 0 to 3
        invariant |stats| == 3
        invariant forall c :: 0 <= c < i ==> stats[c] == multiset(ColumnOf(ppr, a, r + 1, c))
        invariant forall c :: i <= c < 3 ==> stats[c] == multiset(ColumnOf(ppr, a, r, c))
      {
        ColumnOfStep(ppr, a, r, i);
        stats := stats[i := stats[i][perm[i] := stats[i][perm[i]] + 1]];
      }
    }
    ok := forall c | 0 <= c < 3 :: forall v | v in stats[c] :: stats[c][v] == 1;
    CountsOneForEachColumn(ppr, a, row + 1);
  }

  lemma CountsOneForEachColumn(ppr: Orderings, a: seq<nat>, n: int)
    requires WellFormed(ppr) && InRange(ppr, a) && 0 <= n <= |ppr|
    ensures PrefixValid(ppr, a, n) <==>
      forall c | 0 <= c < 3 :: forall v | v in multiset(ColumnOf(ppr, a, n, c)) :: multiset(ColumnOf(ppr, a, n, c))[v] == 1
  {
    PrefixValidIsDistinctColumns(ppr, a, n);
    forall c | 0 <= c < 3 {
      CountsOneIffDistinct(ColumnOf(ppr, a, n, c));
    }
  }

  /**
   * What rotateNextPerm did when it stopped at row n, starting from row `row`: rows before n are
   * untouched, row n moved to its next ordering, and every row after n up to `row` had been on
   * its last ordering and is back to the first.
   */
  predicate Carried(ppr: Orderings, before: seq<nat>, after: seq<nat>, n: int, row: int)
    requires |before| == |ppr| && |after| == |ppr| && 0 <= n <= row < |ppr|
  {
    before[..n] == after[..n] && after[n] == before[n] + 1 &&
    forall k :: n < k <= row ==> before[k] == |ppr[k]| - 1 && after[k] == 0
  }

  /**
   * rotateNextPerm: advances row `row` to its next ordering, or resets it and carries into the
   * row above. Carrying past row 0 is where the source reads `ppr[-1]` and throws; the model
   * reports it as None.
   */
  method RotateNextPerm(ppr: Orderings, activePerms: array<nat>, row: int) returns (next: Option<nat>)
    requires WellFormed(ppr) && InRange(ppr, activePerms[..]) && 0 <= row < |ppr|
    modifies activePerms
    ensures InRange(ppr, activePerms[..])
    ensures forall k :: row < k < |ppr| ==> activePerms[k] == old(activePerms[k])
    ensures next.Some? ==> next.value <= row && Carried(ppr, old(activePerms[..]), activePerms[..], next.value, row)
    ensures next.None? ==> forall k :: 0 <= k <= row ==> old(activePerms[k]) == |ppr[k]| - 1
    decreases row
  {
    activePerms[row] := activePerms[row] + 1;
    if activePerms[row] < |ppr[row]| {
      return Some(row);
    }
    activePerms[row] := 0;
    if row == 0 {
      return None;
    }
    next := RotateNextPerm(ppr, activePerms, row - 1);
  }

  /** Odometer order: c agrees with a before position k and is behind it at k. */
  predicate LexLessAt(c: seq<nat>, a: seq<nat>, k: int) {
    |c| == |a| && 0 <= k < |a| && c[..k] == a[..k] && c[k] < a[k]
  }

  ghost predicate LexLess(c: seq<nat>, a: seq<nat>) {
    exists k :: LexLessAt(c, a, k)
  }

  /** The reading of a state as a mixed-radix number, row 0 most significant. */
  function Value(ppr: Orderings, a: seq<nat>, n: nat): nat
    requires |a| == |ppr| && n <= |ppr|
  {
    if n == 0 then 0 else Value(ppr, a, n - 1) * |ppr[n - 1]| + a[n - 1]
  }

  /** How many states there are for rows 0..n-1. */
  function Size(ppr: Orderings, n: nat): nat
    requires n <= |ppr|
  {
    if n == 0 then 1 else Size(ppr, n - 1) * |ppr[n - 1]|
  }

  lemma {:induction false} ValueBelowSize(ppr: Orderings, a: seq<nat>, n: nat)
    requires WellFormed(ppr) && InRange(ppr, a) && n <= |ppr|
    ensures Value(ppr, a, n) < Size(ppr, n)
  {
    if n > 0 {
      ValueBelowSize(ppr, a, n - 1);
      var v, s, l := Value(ppr, a, n - 1), Size(ppr, n - 1), |ppr[n - 1]|;
      assert v + 1 <= s;
      assert (v + 1) * l <= s * l by { MulLeq(v + 1, s, l); }
    }
  }

  lemma MulLeq(x: nat, y: nat, l: nat)
    requires x <= y
    ensures x * l <= y * l
  {
  }

  lemma {:induction false} ValueOfPrefix(ppr: Orderings, a: seq<nat>, b: seq<nat>, n: nat)
    requires |a| == |ppr| && |b| == |ppr| && n <= |ppr| && a[..n] == b[..n]
    ensures Value(ppr, a, n) == Value(ppr, b, n)
  {
    if n > 0 {
      assert a[..n - 1] == a[..n][..n - 1] && b[..n - 1] == b[..n][..n - 1];
      assert a[n - 1] == a[..n][n - 1] && b[n - 1] == b[..n][n - 1];
      ValueOfPrefix(ppr, a, b, n - 1);
    }
  }

  /** A state behind another in odometer order reads as a smaller number. */
  lemma {:induction false} LexLessValue(ppr: Orderings, c: seq<nat>, a: seq<nat>, k: int, n: nat)
    requires WellFormed(ppr) && InRange(ppr, c) && InRange(ppr, a)
    requires LexLessAt(c, a, k) && k < n <= |ppr|
    ensures Value(ppr, c, n) < Value(ppr, a, n)
  {
    if n == k + 1 {
      ValueOfPrefix(ppr, c, a, k);
    } else {
      LexLessValue(ppr, c, a, k, n - 1);
      HornerStep(Value(ppr, c, n - 1), Value(ppr, a, n - 1), |ppr[n - 1]|, c[n - 1], a[n - 1]);
    }
  }

  lemma HornerStep(vc: nat, va: nat, l: nat, dc: nat, da: nat)
    requires vc < va && dc < l
    ensures vc * l + dc < va * l + da
  {
    MulLeq(vc + 1, va, l);
  }

  /**
   * Rows j..row of a sit on their last orderings and c agrees with a before j: then c is behind
   * a in odometer order, or c agrees with a on all of rows 0..row.
   */
  lemma {:induction false} BehindOrSamePrefix(ppr: Orderings, c: seq<nat>, a: seq<nat>, j: int, row: int)
    requires InRange(ppr, c) && InRange(ppr, a) && 0 <= j <= row + 1 && row < |ppr|
    requires c[..j] == a[..j]
    requires forall k :: j <= k <= row ==> a[k] == |ppr[k]| - 1
    ensures LexLess(c, a) || c[..row + 1] == a[..row + 1]
    decreases row + 1 - j
  {
    if j <= row {
      if c[j] < a[j] {
        assert LexLessAt(c, a, j);
      } else {
        assert c[j] == a[j];
        assert c[..j + 1] == c[..j] + [c[j]] && a[..j + 1] == a[..j] + [a[j]];
        BehindOrSamePrefix(ppr, c, a, j + 1, row);
      }
    }
  }

  /** Every state behind `after` in odometer order is behind `before` or shares its rows 0..row. */
  lemma RotationSkipsOnlyFailedPrefix(ppr: Orderings, before: seq<nat>, after: seq<nat>, n: int, row: int, c: seq<nat>)
    requires InRange(ppr, before) && InRange(ppr, after) && InRange(ppr, c) && 0 <= n <= row < |ppr|
    requires Carried(ppr, before, after, n, row)
    requires forall k :: row < k < |ppr| ==> after[k] == 0
    requires LexLess(c, after)
    ensures LexLess(c, before) || c[..row + 1] == before[..row + 1]
  {
    var k :| LexLessAt(c, after, k);
    if k < n {
      assert c[..k] == before[..k] by {
        assert before[..k] == before[..n][..k] && after[..k] == after[..n][..k];
      }
      assert LexLessAt(c, before, k);
    } else if k == n {
      if c[n] < before[n] {
        assert LexLessAt(c, before, n);
      } else {
        assert c[..n + 1] == c[..n] + [c[n]] && before[..n + 1] == before[..n] + [before[n]];
        BehindOrSamePrefix(ppr, c, before, n + 1, row);
      }
    }
  }

  /** A prefix that repeats a digit in a column rules out every state sharing that prefix. */
  lemma FailedPrefixRulesOut(ppr: Orderings, a: seq<nat>, c: seq<nat>, m: int)
    requires WellFormed(ppr) && InRange(ppr, a) && InRange(ppr, c) && 0 <= m <= |ppr|
    requires !PrefixValid(ppr, a, m) && c[..m] == a[..m]
    ensures !PrefixValid(ppr, c, |ppr|)
  {
    var r1, r2, col :| 0 <= r1 < r2 < m && 0 <= col < 3 && ppr[r1][a[r1]][col] == ppr[r2][a[r2]][col];
    assert c[r1] == c[..m][r1] && c[r2] == c[..m][r2];
  }

  lemma ValidPrefixShared(ppr: Orderings, a: seq<nat>, b: seq<nat>, n: int, m: int)
    requires WellFormed(ppr) && InRange(ppr, a) && InRange(ppr, b) && 0 <= n <= m <= |ppr|
    requires PrefixValid(ppr, a, m) && a[..n] == b[..n]
    ensures PrefixValid(ppr, b, n)
  {
    forall r1, r2, col | 0 <= r1 < r2 < n && 0 <= col < 3 ensures ppr[r1][b[r1]][col] != ppr[r2][b[r2]][col] {
      assert a[r1] == a[..n][r1] && a[r2] == a[..n][r2];
    }
  }

  /** Every state behind a in odometer order leaves some column with a repeated digit. */
  ghost predicate Excluded(ppr: Orderings, a: seq<nat>)
    requires WellFormed(ppr)
  {
    forall c :: InRange(ppr, c) && LexLess(c, a) ==> !PrefixValid(ppr, c, |ppr|)
  }

  /**
   * getValidPermutation with setStateToValidPerms: from row 3 on, accept the row when columns
   * 0..currentRow are free of repeats, otherwise rotate. The first three rows are assumed
   * compatible at their first orderings. The result is the first acceptable state in odometer
   * order: no state before it (Excluded) makes every column free of repeats. None means no
   * choice of orderings works.
   */
  method GetValidPermutation(ppr: Orderings) returns (r: Option<seq<seq<int>>>)
    requires WellFormed(ppr)
    requires forall r1, r2, c :: 0 <= r1 < r2 < 3 && 0 <= c < 3 ==> ppr[r1][0][c] != ppr[r2][0][c]
    ensures r.Some? ==> |r.value| == |ppr| && (forall k :: 0 <= k < |ppr| ==> r.value[k] in ppr[k])
    ensures r.Some? ==> ColumnsDistinct(r.value)
    ensures r.None? ==> forall a :: InRange(ppr, a) ==> !ColumnsDistinct(Picked(ppr, a))
    ensures r.Some? ==> exists a :: InRange(ppr, a) && r.value == Picked(ppr, a) && Excluded(ppr, a)
  {
    var activePerms := new nat[|ppr|](_ => 0);
    var currentRow := 3;
    StartExcludesNothing(ppr, activePerms[..]);
    while currentRow < |ppr|
      invariant 0 <= currentRow <= |ppr| && InRange(ppr, activePerms[..])
      invariant forall k :: currentRow < k < |ppr| ==> activePerms[k] == 0
      invariant PrefixValid(ppr, activePerms[..], currentRow)
      invariant Excluded(ppr, activePerms[..])
      decreases Size(ppr, |ppr|) - Value(ppr, activePerms[..], |ppr|), |ppr| - currentRow
    {
      ValueBelowSize(ppr, activePerms[..], |ppr|);
      var ok := CheckColsUntilCurrentRow(ppr, activePerms, currentRow);
      if ok {
        currentRow := currentRow + 1;
      } else {
        ghost var before := activePerms[..];
        var next := RotateNextPerm(ppr, activePerms, currentRow);
        if next.None? {
          SearchExhausted(ppr, before, currentRow);
          return None;
        }
        RotationStep(ppr, before, activePerms[..], next.value, currentRow);
        currentRow := next.value;
      }
    }
    r := Some(Picked(ppr, activePerms[..]));
    PrefixValidIsColumnsDistinct(ppr, activePerms[..]);
    assert InRange(ppr, activePerms[..]) && r.value == Picked(ppr, activePerms[..]);
  }

  /** The all-zero starting state has no state before it, so nothing is ruled out yet. */
  lemma StartExcludesNothing(ppr: Orderings, zero: seq<nat>)
    requires WellFormed(ppr) && |zero| == |ppr| && forall k :: 0 <= k < |zero| ==> zero[k] == 0
    ensures Excluded(ppr, zero)
  {
    forall c | InRange(ppr, c) ensures !LexLess(c, zero) {
      forall k ensures !LexLessAt(c, zero, k) {
      }
    }
  }

  /** When the carry runs past row 0 after a failed check, no state at all is acceptable. */
  lemma SearchExhausted(ppr: Orderings, before: seq<nat>, row: int)
    requires WellFormed(ppr) && InRange(ppr, before) && 0 <= row < |ppr|
    requires Excluded(ppr, before) && !PrefixValid(ppr, before, row + 1)
    requires forall k :: 0 <= k <= row ==> before[k] == |ppr[k]| - 1
    ensures forall a :: InRange(ppr, a) ==> !ColumnsDistinct(Picked(ppr, a))
  {
    forall a | InRange(ppr, a) ensures !ColumnsDistinct(Picked(ppr, a)) {
      ExhaustedAt(ppr, before, a, row);
    }
  }

  lemma ExhaustedAt(ppr: Orderings, before: seq<nat>, a: seq<nat>, row: int)
    requires WellFormed(ppr) && InRange(ppr, before) && InRange(ppr, a) && 0 <= row < |ppr|
    requires Excluded(ppr, before) && !PrefixValid(ppr, before, row + 1)
    requires forall k :: 0 <= k <= row ==> before[k] == |ppr[k]| - 1
    ensures !ColumnsDistinct(Picked(ppr, a))
  {
    BehindOrSamePrefix(ppr, a, before, 0, row);
    if !LexLess(a, before) {
      FailedPrefixRulesOut(ppr, before, a, row + 1);
    }
    PrefixValidIsColumnsDistinct(ppr, a);
  }

  /** One rotation after a failed check keeps every loop invariant and moves the odometer forward. */
  lemma RotationStep(ppr: Orderings, before: seq<nat>, after: seq<nat>, n: int, row: int)
    requires WellFormed(ppr) && InRange(ppr, before) && InRange(ppr, after) && 0 <= n <= row < |ppr|
    requires Carried(ppr, before, after, n, row)
    requires forall k :: row < k < |ppr| ==> after[k] == before[k] && before[k] == 0
    requires PrefixValid(ppr, before, row) && !PrefixValid(ppr, before, row + 1)
    requires Excluded(ppr, before)
    ensures forall k :: n < k < |ppr| ==> after[k] == 0
    ensures PrefixValid(ppr, after, n)
    ensures Excluded(ppr, after)
    ensures Value(ppr, before, |ppr|) < Value(ppr, after, |ppr|) < Size(ppr, |ppr|)
  {
    ValidPrefixShared(ppr, before, after, n, row);
    forall c | InRange(ppr, c) && LexLess(c, after) ensures !PrefixValid(ppr, c, |ppr|) {
      RotationSkipsOnlyFailedPrefix(ppr, before, after, n, row, c);
      if !LexLess(c, before) {
        FailedPrefixRulesOut(ppr, before, c, row + 1);
      }
    }
    assert LexLessAt(before, after, n);
    LexLessValue(ppr, before, after, n, |ppr|);
    ValueBelowSize(ppr, after, |ppr|);
  }
}
