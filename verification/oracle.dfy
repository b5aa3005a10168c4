/**
 * `hasUniqueSolution` / `placeNumbers` of src/sudoku.js: a deduction-only solver that fills
 * any empty cell whose row, column or block misses exactly one digit, or for which the three
 * missing sets share exactly one digit, pass after pass until nothing changes.
 * Every function takes the digit alphabet it tests against (`allNums` in the source).
 */
module Oracle {
  import opened Common
  import opened Collections
  import opened Grid

  /** A partial grid: None is an empty cell (`undefined` in the source). */
  type Cells = seq<Option<int>>

  /** `allNums = seq(9)` as the source writes it: 0..8. */
  const WrittenDigits: seq<int> := [0, 1, 2, 3, 4, 5, 6, 7, 8]

  /** The digits a generated grid holds, 1..9. */
  const Digits: seq<int> := [1, 2, 3, 4, 5, 6, 7, 8, 9]

  /** The alphabets the oracle is run with: the one the code writes and the one it means. */
  predicate DigitAlphabet(alphabet: seq<int>) {
    alphabet == WrittenDigits || alphabet == Digits
  }

  /** The filled cells of a list of cells, in order (`.filter(Number.isInteger)`). */
  function Present(cells: Cells): (r: seq<int>)
    ensures forall x :: x in r <==> Some(x) in cells
    ensures |r| <= |cells|
  {
    if |cells| == 0 then []
    else
      var rest := Present(cells[1..]);
      assert forall x :: Some(x) in cells <==> cells[0] == Some(x) || Some(x) in cells[1..];
      if cells[0].Some? then [cells[0].value] + rest else rest
  }

  /** getNumbersInRow: the digits in the row of cell i. */
  function NumbersInRow(g: Cells, i: int): (r: seq<int>)
    requires |g| == 81 && 0 <= i < 81
    ensures |r| <= 9 && forall x :: x in r ==> Some(x) in g
  {
    Present(g[Row(i) * 9 .. Row(i) * 9 + 9])
  }

  /** getNumbersInColumn: the digits in the column of cell i, top to bottom. */
  function NumbersInColumn(g: Cells, i: int): (r: seq<int>)
    requires |g| == 81 && 0 <= i < 81
    ensures |r| <= 9 && forall x :: x in r ==> Some(x) in g
  {
    var column := seq(9, k requires 0 <= k < 9 => g[k * 9 + Column(i)]);
    assert forall x :: Some(x) in column ==> Some(x) in g by {
      forall x | Some(x) in column ensures Some(x) in g {
        var k :| 0 <= k < 9 && column[k] == Some(x);
        assert g[k * 9 + Column(i)] == Some(x);
      }
    }
    Present(column)
  }

  /** The digits among cells 0..n-1 that lie in block b, in index order. */
  function BlockNumbers(g: Cells, b: int, n: nat): (r: seq<int>)
    requires |g| == 81 && n <= 81
    ensures forall x :: x in r <==> exists j :: 0 <= j < n && BlockIndex(j) == b && g[j] == Some(x)
  {
    if n == 0 then []
    else
      var rest := BlockNumbers(g, b, n - 1);
      if g[n - 1].Some? && BlockIndex(n - 1) == b then rest + [g[n - 1].value] else rest
  }

  /** getNumbersInBlock: the digits in the block of cell i. */
  function NumbersInBlock(g: Cells, i: int): (r: seq<int>)
    requires |g| == 81 && 0 <= i < 81
    ensures forall x :: x in r <==> exists j :: 0 <= j < 81 && BlockIndex(j) == BlockIndex(i) && g[j] == Some(x)
  {
    BlockNumbers(g, BlockIndex(i), 81)
  }

  /** arrAND(a, b, c): the elements of a that also occur in b and in c, in a's order. */
  function ArrAnd(a: seq<int>, b: seq<int>, c: seq<int>): (r: seq<int>)
    ensures forall x :: x in r <==> x in a && x in b && x in c
  {
    if |a| == 0 then []
    else
      var rest := ArrAnd(a[1..], b, c);
      assert forall x :: x in a <==> x == a[0] || x in a[1..];
      if a[0] in b && a[0] in c then [a[0]] + rest else rest
  }

  /**
   * The body of the reduce in placeNumbers for one empty cell: the digit it would write, if any.
   * The rules are tried in the source's order: row, column, block, then the intersection.
   */
  function Deduce(g: Cells, i: int, alphabet: seq<int>): (r: Option<int>)
    requires |g| == 81 && 0 <= i < 81
    ensures r.Some? ==> r.value in alphabet
  {
    var inRow := Missing(alphabet, NumbersInRow(g, i));
    if |inRow| == 1 then Some(inRow[0])
    else
      var inColumn := Missing(alphabet, NumbersInColumn(g, i));
      if |inColumn| == 1 then Some(inColumn[0])
      else
        var inBlock := Missing(alphabet, NumbersInBlock(g, i));
        if |inBlock| == 1 then Some(inBlock[0])
        else
          var overlap := ArrAnd(inRow, inColumn, inBlock);
          if |overlap| == 1 then Some(overlap[0]) else None
  }

  /** The indices of the empty cells among the first n, ascending (the reduce at the top of placeNumbers). */
  function EmptyIndices(g: Cells, n: nat): (r: seq<int>)
    requires n <= |g|
    ensures forall k :: k in r <==> 0 <= k < n && g[k].None?
    ensures forall a, b :: 0 <= a < b < |r| ==> r[a] < r[b]
    ensures forall a :: 0 <= a < |r| ==> 0 <= r[a] < n
    ensures n <= 81 ==> Ascending(r)
  {
    if n == 0 then []
    else
      var rest := EmptyIndices(g, n - 1);
      if g[n - 1].None? then rest + [n - 1] else rest
  }

  /** A grid without empty cells. */
  predicate NoEmptyCell(g: Cells) {
    forall k :: 0 <= k < |g| ==> g[k].Some?
  }

  lemma NoEmptyCellIffNoEmptyIndex(g: Cells)
    requires |g| == 81
    ensures NoEmptyCell(g) <==> |EmptyIndices(g, 81)| == 0
  {
    if |EmptyIndices(g, 81)| > 0 {
      assert EmptyIndices(g, 81)[0] in EmptyIndices(g, 81);
    }
  }

  /** Cell indices in strictly ascending order, as the empty cells of a pass are visited. */
  predicate Ascending(todo: seq<int>) {
    (forall a :: 0 <= a < |todo| ==> 0 <= todo[a] < 81) &&
    (forall a, b :: 0 <= a < b < |todo| ==> todo[a] < todo[b])
  }

  lemma AscendingSuffix(todo: seq<int>, k: int)
    requires Ascending(todo) && 0 <= k <= |todo|
    ensures Ascending(todo[k..])
  {
  }

  /** The solved grid t with the cells listed in `removed` emptied. */
  function Blanked(t: seq<int>, removed: seq<int>): Cells {
    seq(|t|, k requires 0 <= k < |t| => if k in removed then None else Some(t[k]))
  }

  /** The set of empty cells: it shrinks strictly with every pass that makes progress. */
  ghost function EmptySet(g: Cells): set<int> {
    set k | 0 <= k < |g| && g[k].None?
  }

  predicate AllEmpty(g: Cells, todo: seq<int>)
    requires forall a :: 0 <= a < |todo| ==> 0 <= todo[a] < |g|
  {
    forall a :: 0 <= a < |todo| ==> g[todo[a]].None?
  }

  /**
   * One pass of placeNumbers over the cells still in `todo`, visiting them in order and writing
   * each deduced digit into the grid at once, so that later cells of the same pass see it.
   * The flag becomes true as soon as one digit is written.
   */
  function PassOver(g: Cells, todo: seq<int>, progress: bool, alphabet: seq<int>): (r: (Cells, bool))
    requires |g| == 81
    requires Ascending(todo)
    requires AllEmpty(g, todo)
    ensures |r.0| == 81
    ensures forall k :: 0 <= k < 81 && g[k].Some? ==> r.0[k] == g[k]
    ensures r.1 <==> progress || r.0 != g
    ensures r.0 != g ==> EmptySet(r.0) < EmptySet(g)
    decreases |todo|
  {
    if |todo| == 0 then (g, progress)
    else
      var i := todo[0];
      match Deduce(g, i, alphabet)
      case Some(d) =>
        var g' := g[i := Some(d)];
        assert i in EmptySet(g) && i !in EmptySet(g');
        assert EmptySet(g') < EmptySet(g);
        var r := PassOver(g', todo[1..], true, alphabet);
        assert r.0 != g by {
          assert r.0[i] == Some(d);
        }
        r
      case None => PassOver(g, todo[1..], progress, alphabet)
  }

  /** Visiting the first cell of `todo`: the pass continues over the rest from the grid with its digit written, if any. */
  lemma PassOverStep(g: Cells, todo: seq<int>, progress: bool, alphabet: seq<int>)
    requires |g| == 81 && |todo| > 0
    requires Ascending(todo)
    requires AllEmpty(g, todo)
    ensures var d := Deduce(g, todo[0], alphabet);
      var next := if d.Some? then g[todo[0] := d] else g;
      AllEmpty(next, todo[1..]) &&
      PassOver(g, todo, progress, alphabet) == PassOver(next, todo[1..], progress || d.Some?, alphabet)
  {
  }

  /** One full pass over the empty cells of g. */
  function Pass(g: Cells, alphabet: seq<int>): (r: (Cells, bool))
    requires |g| == 81
    ensures |r.0| == 81
  {
    PassOver(g, EmptyIndices(g, 81), false, alphabet)
  }

  /** placeNumbers: true when repeated passes empty the grid, false when a pass makes no progress first. */
  function Resolves(g: Cells, alphabet: seq<int>): (r: bool)
    requires |g| == 81
    ensures r ==> EmptyIndices(g, 81) == [] || Pass(g, alphabet).1
    decreases EmptySet(g)
  {
    if |EmptyIndices(g, 81)| == 0 then true
    else
      var (next, progress) := Pass(g, alphabet);
      if progress then Resolves(next, alphabet) else false
  }

  /**
   * A pass never overwrites a filled cell; it reports progress exactly when it changed the grid,
   * and then fewer cells are blank than before.
   */
  lemma PassFacts(g: Cells, alphabet: seq<int>)
    requires |g| == 81
    ensures var (next, progress) := Pass(g, alphabet);
      (forall k :: 0 <= k < 81 && g[k].Some? ==> next[k] == g[k]) &&
      (progress <==> next != g) &&
      (progress ==> EmptySet(next) < EmptySet(g))
  {
  }

  /**
   * placeNumbers stops with true on a grid without blanks, and with false when a pass over a
   * grid that still has blanks changes nothing.
   */
  lemma ResolvesStops(g: Cells, alphabet: seq<int>)
    requires |g| == 81
    ensures NoEmptyCell(g) ==> Resolves(g, alphabet)
    ensures !NoEmptyCell(g) && Pass(g, alphabet).0 == g ==> !Resolves(g, alphabet)
  {
    NoEmptyCellIffNoEmptyIndex(g);
  }

  /** One pass of the reduce in placeNumbers, writing into the solution buffer in place. */
  method PlacePass(solution: array<Option<int>>, allNums: seq<int>) returns (hasProgress: bool)
    requires solution.Length == 81
    modifies solution
    ensures (solution[..], hasProgress) == Pass(old(solution[..]), allNums)
  {
    var emptyIndices := EmptyIndices(solution[..], 81);
    ghost var start := solution[..];
    hasProgress := false;
    AscendingSuffix(emptyIndices, 0);
    for k := 0 to |emptyIndices|
      invariant Ascending(emptyIndices[k..]) && AllEmpty(solution[..], emptyIndices[k..])
      invariant PassOver(solution[..], emptyIndices[k..], hasProgress, allNums) == Pass(start, allNums)
    {
      var index := emptyIndices[k];
      PassOverStep(solution[..], emptyIndices[k..], hasProgress, allNums);
      var digit := Deduce(solution[..], index, allNums);
      if digit.Some? {
        solution[index] := digit;
        hasProgress := true;
      }
      assert emptyIndices[k..][1..] == emptyIndices[k + 1..];
      AscendingSuffix(emptyIndices, k + 1);
    }
  }

  /**
   * hasUniqueSolution: rejects input that is not 81 cells long, then runs placeNumbers on a copy.
   * `allNums` is the candidate alphabet: WrittenDigits is the code as written, Digits the fix.
   */
  method HasUniqueSolution(numbers: Cells, allNums: seq<int>) returns (r: Result<bool>)
    ensures r.Failure? <==> |numbers| != 81
    ensures r.Success? ==> r.value == Resolves(numbers, allNums)
    ensures r.Success? && NoEmptyCell(numbers) ==> r.value
  {
    if |numbers| != 81 {
      return Failure("'numbers' must be an array of 81 elements");
    }
    NoEmptyCellIffNoEmptyIndex(numbers);
    var solution := new Option<int>[81](k requires 0 <= k < 81 => numbers[k]);
    assert solution[..] == numbers;
    while true
      invariant Resolves(solution[..], allNums) == Resolves(numbers, allNums)
      decreases EmptySet(solution[..])
    {
      if |EmptyIndices(solution[..], 81)| == 0 {
        return Success(true);
      }
      var hasProgress := PlacePass(solution, allNums);
      if !hasProgress {
        return Success(false);
      }
    }
  }
}
