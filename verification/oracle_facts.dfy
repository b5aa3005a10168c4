/** What the deduction oracle of src/sudoku.js guarantees, and where its written alphabet goes wrong. */
module OracleFacts {
  import opened Common
  import opened Collections
  import opened Grid
  import opened Oracle

  /** The partial grid g is consistent with the solved grid t: every filled cell of g holds t's digit. */
  predicate Agrees(g: Cells, t: seq<int>) {
    |g| == 81 && |t| == 81 &&
    forall k :: 0 <= k < 81 && g[k].Some? ==> g[k].value == t[k]
  }

  /**
   * How an alphabet spells digit d of a solution. The digits 1..9 spell d as itself. The
   * digits 0..8 have no 9; the only candidate they leave for a cell whose digit is 9 is 0,
   * which is 9 % 9, and 1..8 stand for themselves.
   */
  function Symbol(alphabet: seq<int>, d: int): (v: int)
    ensures DigitAlphabet(alphabet) && 1 <= d <= 9 ==> v in alphabet
  {
    if alphabet == WrittenDigits then d % 9 else d
  }

  /** A value is the spelling of at most one digit 1..9. */
  lemma SymbolDetermines(alphabet: seq<int>, v: int, d: int, e: int)
    requires 1 <= d <= 9 && 1 <= e <= 9
    requires v == d || v == Symbol(alphabet, d)
    requires v == e || v == Symbol(alphabet, e)
    ensures d == e
  {
  }

  /**
   * g is consistent with the solved grid t under an alphabet: every filled cell holds t's digit
   * (a given) or the alphabet's spelling of it (a digit the oracle wrote).
   */
  predicate Consistent(g: Cells, t: seq<int>, alphabet: seq<int>) {
    |g| == 81 && |t| == 81 &&
    forall k :: 0 <= k < 81 && g[k].Some? ==> g[k].value == t[k] || g[k].value == Symbol(alphabet, t[k])
  }

  lemma AgreesConsistent(g: Cells, t: seq<int>, alphabet: seq<int>)
    requires Agrees(g, t)
    ensures Consistent(g, t, alphabet)
  {
  }

  lemma RowMembers(g: Cells, i: int, x: int)
    requires |g| == 81 && 0 <= i < 81
    ensures x in NumbersInRow(g, i) <==> exists j :: 0 <= j < 81 && Row(j) == Row(i) && g[j] == Some(x)
  {
    var start := Row(i) * 9;
    var s := g[start .. start + 9];
    if x in NumbersInRow(g, i) {
      var c :| 0 <= c < 9 && s[c] == Some(x);
      DivModNine(Row(i), c);
      assert g[start + c] == Some(x) && Row(start + c) == Row(i);
    }
    if exists j :: 0 <= j < 81 && Row(j) == Row(i) && g[j] == Some(x) {
      var j :| 0 <= j < 81 && Row(j) == Row(i) && g[j] == Some(x);
      assert s[Column(j)] == Some(x);
    }
  }

  lemma ColumnMembers(g: Cells, i: int, x: int)
    requires |g| == 81 && 0 <= i < 81
    ensures x in NumbersInColumn(g, i) <==> exists j :: 0 <= j < 81 && Column(j) == Column(i) && g[j] == Some(x)
  {
    var s := seq(9, k requires 0 <= k < 9 => g[k * 9 + Column(i)]);
    if x in NumbersInColumn(g, i) {
      var k :| 0 <= k < 9 && s[k] == Some(x);
      DivModNine(k, Column(i));
      assert g[k * 9 + Column(i)] == Some(x) && Column(k * 9 + Column(i)) == Column(i);
    }
    if exists j :: 0 <= j < 81 && Column(j) == Column(i) && g[j] == Some(x) {
      var j :| 0 <= j < 81 && Column(j) == Column(i) && g[j] == Some(x);
      assert s[Row(j)] == Some(x);
    }
  }

  /**
   * The spelling of the digit of blank cell i, in any solution consistent with g, occurs at no
   * peer of i: it is missing from i's row, column and block.
   */
  lemma SolutionDigitIsMissing(g: Cells, t: seq<int>, i: int, alphabet: seq<int>)
    requires ValidGrid(t) && Consistent(g, t, alphabet) && DigitAlphabet(alphabet)
    requires 0 <= i < 81 && g[i].None?
    ensures Symbol(alphabet, t[i]) in Missing(alphabet, NumbersInRow(g, i))
    ensures Symbol(alphabet, t[i]) in Missing(alphabet, NumbersInColumn(g, i))
    ensures Symbol(alphabet, t[i]) in Missing(alphabet, NumbersInBlock(g, i))
  {
    var v := Symbol(alphabet, t[i]);
    RowMembers(g, i, v);
    ColumnMembers(g, i, v);
    if v in NumbersInRow(g, i) {
      var j :| 0 <= j < 81 && Row(j) == Row(i) && g[j] == Some(v);
      SymbolDetermines(alphabet, v, t[j], t[i]);
      assert Peers(i, j);
    }
    if v in NumbersInColumn(g, i) {
      var j :| 0 <= j < 81 && Column(j) == Column(i) && g[j] == Some(v);
      SymbolDetermines(alphabet, v, t[j], t[i]);
      assert Peers(i, j);
    }
    if v in NumbersInBlock(g, i) {
      var j :| 0 <= j < 81 && BlockIndex(j) == BlockIndex(i) && g[j] == Some(v);
      SymbolDetermines(alphabet, v, t[j], t[i]);
      assert Peers(i, j);
    }
  }

  lemma SingleMember(s: seq<int>, v: int)
    requires v in s && |s| == 1
    ensures s[0] == v
  {
  }

  /**
   * Soundness of one deduction: whatever the oracle writes into a blank cell is the alphabet's
   * spelling of the digit every consistent solution has there (under 0..8 a 9 is written as 0).
   */
  lemma DeduceSound(g: Cells, t: seq<int>, i: int, alphabet: seq<int>)
    requires ValidGrid(t) && Consistent(g, t, alphabet) && DigitAlphabet(alphabet)
    requires 0 <= i < 81 && g[i].None?
    ensures Deduce(g, i, alphabet).Some? ==> Deduce(g, i, alphabet).value == Symbol(alphabet, t[i])
  {
    SolutionDigitIsMissing(g, t, i, alphabet);
    var v := Symbol(alphabet, t[i]);
    var inRow := Missing(alphabet, NumbersInRow(g, i));
    var inColumn := Missing(alphabet, NumbersInColumn(g, i));
    var inBlock := Missing(alphabet, NumbersInBlock(g, i));
    var overlap := ArrAnd(inRow, inColumn, inBlock);
    assert v in overlap;
    if |inRow| == 1 {
      SingleMember(inRow, v);
    } else if |inColumn| == 1 {
      SingleMember(inColumn, v);
    } else if |inBlock| == 1 {
      SingleMember(inBlock, v);
    } else if |overlap| == 1 {
      SingleMember(overlap, v);
    }
  }

  /** A pass never contradicts a solution that is consistent with the grid it starts from. */
  lemma {:induction false} PassOverSound(g: Cells, todo: seq<int>, progress: bool, t: seq<int>, alphabet: seq<int>)
    requires |g| == 81 && ValidGrid(t) && Consistent(g, t, alphabet) && DigitAlphabet(alphabet)
    requires Ascending(todo)
    requires AllEmpty(g, todo)
    ensures Consistent(PassOver(g, todo, progress, alphabet).0, t, alphabet)
    decreases |todo|
  {
    if |todo| > 0 {
      var i := todo[0];
      DeduceSound(g, t, i, alphabet);
      match Deduce(g, i, alphabet)
      case Some(d) =>
        PassOverSound(g[i := Some(d)], todo[1..], true, t, alphabet);
      case None =>
        PassOverSound(g, todo[1..], progress, t, alphabet);
    }
  }

  /**
   * What "unique solution" means for this oracle, under either alphabet: when it reports true,
   * at most one solved grid is consistent with the givens, because every value it writes is
   * forced. Under 0..8 a written 0 stands for 9.
   */
  lemma {:induction false} UniqueCompletion(g: Cells, t1: seq<int>, t2: seq<int>, alphabet: seq<int>)
    requires |g| == 81 && DigitAlphabet(alphabet) && Resolves(g, alphabet)
    requires ValidGrid(t1) && Consistent(g, t1, alphabet)
    requires ValidGrid(t2) && Consistent(g, t2, alphabet)
    ensures t1 == t2
    decreases EmptySet(g)
  {
    if |EmptyIndices(g, 81)| == 0 {
      forall k | 0 <= k < 81 ensures t1[k] == t2[k] {
        assert k !in EmptyIndices(g, 81);
        SymbolDetermines(alphabet, g[k].value, t1[k], t2[k]);
      }
    } else {
      var next := Pass(g, alphabet).0;
      PassOverSound(g, EmptyIndices(g, 81), false, t1, alphabet);
      PassOverSound(g, EmptyIndices(g, 81), false, t2, alphabet);
      UniqueCompletion(next, t1, t2, alphabet);
    }
  }

  /** The grid after n passes (a pass without progress leaves the grid as it is). */
  function Iterate(g: Cells, n: nat, alphabet: seq<int>): (r: Cells)
    requires |g| == 81
    ensures |r| == 81
    decreases n
  {
    if n == 0 then g else Iterate(Pass(g, alphabet).0, n - 1, alphabet)
  }

  lemma {:induction false} StuckStaysStuck(g: Cells, n: nat, alphabet: seq<int>)
    requires |g| == 81 && Pass(g, alphabet).0 == g
    ensures Iterate(g, n, alphabet) == g
  {
    if n > 0 {
      StuckStaysStuck(g, n - 1, alphabet);
    }
  }

  /** placeNumbers returns true exactly when some number of passes reaches a grid without empty cells. */
  lemma {:induction false} ResolvesIffPassesComplete(g: Cells, alphabet: seq<int>)
    requires |g| == 81
    ensures Resolves(g, alphabet) <==> exists n: nat :: NoEmptyCell(Iterate(g, n, alphabet))
    decreases EmptySet(g)
  {
    NoEmptyCellIffNoEmptyIndex(g);
    if |EmptyIndices(g, 81)| == 0 {
      assert Resolves(g, alphabet);
      assert Iterate(g, 0, alphabet) == g;
      assert NoEmptyCell(Iterate(g, 0, alphabet));
    } else {
      var (next, progress) := Pass(g, alphabet);
      if progress {
        ResolvesIffPassesComplete(next, alphabet);
        if Resolves(g, alphabet) {
          var n: nat :| NoEmptyCell(Iterate(next, n, alphabet));
          assert Iterate(g, n + 1, alphabet) == Iterate(next, n, alphabet);
        } else {
          forall n: nat ensures !NoEmptyCell(Iterate(g, n, alphabet)) {
            if n > 0 {
              assert Iterate(g, n, alphabet) == Iterate(next, n - 1, alphabet);
            }
          }
        }
      } else {
        forall n: nat ensures !NoEmptyCell(Iterate(g, n, alphabet)) {
          StuckStaysStuck(g, n, alphabet);
        }
      }
    }
  }

  lemma TwoMembers(s: seq<int>, a: int, b: int)
    requires a in s && b in s && a != b
    ensures |s| >= 2
  {
  }

  lemma OnlyMember(s: seq<int>, v: int)
    requires NoDuplicates(s) && v in s && forall x :: x in s ==> x == v
    ensures |s| == 1
  {
    forall k | 0 <= k < |s| ensures s[k] in {v} {
      assert s[k] in s;
    }
    DistinctListFitsInSet(s, {v});
  }

  /** The empty cells of t with only cell i removed are exactly [i]. */
  lemma SingleBlankIndices(t: seq<int>, i: int)
    requires |t| == 81 && 0 <= i < 81
    ensures EmptyIndices(Blanked(t, [i]), 81) == [i]
  {
    var r := EmptyIndices(Blanked(t, [i]), 81);
    assert i in r;
    forall k | 0 <= k < |r| ensures r[k] in {i} {
      assert r[k] in r;
    }
    DistinctListFitsInSet(r, {i});
  }

  /** With any alphabet, a deduction that yields nothing leaves a single blank unresolved. */
  lemma StuckSingleBlank(t: seq<int>, i: int, alphabet: seq<int>)
    requires |t| == 81 && 0 <= i < 81
    requires Deduce(Blanked(t, [i]), i, alphabet).None?
    ensures !Resolves(Blanked(t, [i]), alphabet)
  {
    SingleBlankIndices(t, i);
    var g := Blanked(t, [i]);
    assert PassOver(g, [i], false, alphabet) == PassOver(g, [], false, alphabet);
  }

  lemma BlankedAgrees(t: seq<int>, removed: seq<int>)
    requires |t| == 81
    ensures Agrees(Blanked(t, removed), t)
  {
  }

  /** Two distinct candidates left by every rule: the oracle writes nothing at cell i. */
  lemma TwoCandidates(g: Cells, i: int, alphabet: seq<int>, a: int, b: int)
    requires |g| == 81 && 0 <= i < 81 && a != b
    requires a in Missing(alphabet, NumbersInRow(g, i)) && b in Missing(alphabet, NumbersInRow(g, i))
    requires a in Missing(alphabet, NumbersInColumn(g, i)) && b in Missing(alphabet, NumbersInColumn(g, i))
    requires a in Missing(alphabet, NumbersInBlock(g, i)) && b in Missing(alphabet, NumbersInBlock(g, i))
    ensures Deduce(g, i, alphabet).None?
  {
    var inRow := Missing(alphabet, NumbersInRow(g, i));
    var inColumn := Missing(alphabet, NumbersInColumn(g, i));
    var inBlock := Missing(alphabet, NumbersInBlock(g, i));
    TwoMembers(inRow, a, b);
    TwoMembers(inColumn, a, b);
    TwoMembers(inBlock, a, b);
    TwoMembers(ArrAnd(inRow, inColumn, inBlock), a, b);
  }

  /** No cell of a grid agreeing with a solution holds 0, so 0 is missing from every group, as written. */
  lemma ZeroAlwaysMissing(g: Cells, t: seq<int>, i: int)
    requires Agrees(g, t) && 0 <= i < 81
    requires forall k :: 0 <= k < 81 ==> 1 <= t[k]
    ensures 0 in Missing(WrittenDigits, NumbersInRow(g, i))
    ensures 0 in Missing(WrittenDigits, NumbersInColumn(g, i))
    ensures 0 in Missing(WrittenDigits, NumbersInBlock(g, i))
  {
    RowMembers(g, i, 0);
    ColumnMembers(g, i, 0);
    assert 0 in WrittenDigits;
  }

  /** As written, the oracle finds two candidates, 0 and the true digit, by every rule. */
  lemma AsWrittenDeducesNothing(t: seq<int>, i: int)
    requires ValidGrid(t) && 0 <= i < 81 && t[i] != 9
    ensures Deduce(Blanked(t, [i]), i, WrittenDigits).None?
  {
    var g := Blanked(t, [i]);
    BlankedAgrees(t, [i]);
    AgreesConsistent(g, t, WrittenDigits);
    assert Symbol(WrittenDigits, t[i]) == t[i];
    SolutionDigitIsMissing(g, t, i, WrittenDigits);
    ZeroAlwaysMissing(g, t, i);
    TwoCandidates(g, i, WrittenDigits, 0, t[i]);
  }

  /**
   * As written, the oracle tests against `seq(9)`, the digits 0..8, while grids hold 1..9.
   * Then 0 is missing from every row, column and block, so each missing set of a blank cell
   * whose digit is 1..8 has at least two members, and a solved grid with that single cell
   * blanked is reported as not uniquely solvable.
   */
  lemma AsWrittenRejectsSingleBlank(t: seq<int>, i: int)
    requires ValidGrid(t) && 0 <= i < 81 && t[i] != 9
    ensures !Resolves(Blanked(t, [i]), WrittenDigits)
  {
    AsWrittenDeducesNothing(t, i);
    StuckSingleBlank(t, i, WrittenDigits);
  }

  /** A digit other than t[i] lies in a filled cell of i's row when only cell i is blank. */
  lemma OtherDigitPresentInRow(t: seq<int>, i: int, x: int)
    requires ValidGrid(t) && 0 <= i < 81 && 1 <= x <= 9 && x != t[i]
    ensures x in NumbersInRow(Blanked(t, [i]), i)
  {
    var g := Blanked(t, [i]);
    RowHoldsEveryDigit(t, Row(i), x);
    var j :| 0 <= j < 81 && Row(j) == Row(i) && t[j] == x;
    BlankedAgrees(t, [i]);
    assert g[j] == Some(x);
    RowMembers(g, i, x);
  }

  /**
   * The candidates the row rule sees for a single blank: the spelling of its own digit, and
   * nothing else from 1..9. Under 0..8 that leaves 0 as a second candidate unless the digit is 9.
   */
  lemma SingleBlankRowCandidates(t: seq<int>, i: int, alphabet: seq<int>)
    requires ValidGrid(t) && 0 <= i < 81 && DigitAlphabet(alphabet)
    ensures Symbol(alphabet, t[i]) in Missing(alphabet, NumbersInRow(Blanked(t, [i]), i))
    ensures forall x :: x in Missing(alphabet, NumbersInRow(Blanked(t, [i]), i)) ==>
      x == Symbol(alphabet, t[i]) || x !in Digits
  {
    BlankedAgrees(t, [i]);
    AgreesConsistent(Blanked(t, [i]), t, alphabet);
    SolutionDigitIsMissing(Blanked(t, [i]), t, i, alphabet);
    forall x | x in Missing(alphabet, NumbersInRow(Blanked(t, [i]), i)) && x in Digits
      ensures x == Symbol(alphabet, t[i])
    {
      SingleBlankRowCandidate(t, i, x, alphabet);
    }
  }

  lemma SingleBlankRowCandidate(t: seq<int>, i: int, x: int, alphabet: seq<int>)
    requires ValidGrid(t) && 0 <= i < 81 && DigitAlphabet(alphabet)
    requires x in Missing(alphabet, NumbersInRow(Blanked(t, [i]), i)) && x in Digits
    ensures x == Symbol(alphabet, t[i])
  {
    var row := NumbersInRow(Blanked(t, [i]), i);
    assert x in alphabet && x !in row;
    assert 1 <= x <= 9;
    if x != t[i] {
      OtherDigitPresentInRow(t, i, x);
      assert false;
    }
    SpelledAsItself(alphabet, x);
  }

  /** A digit 1..9 that belongs to the alphabet is spelled as itself. */
  lemma SpelledAsItself(alphabet: seq<int>, x: int)
    requires DigitAlphabet(alphabet) && x in alphabet && 1 <= x <= 9
    ensures Symbol(alphabet, x) == x
  {
    if alphabet == WrittenDigits {
      assert x <= 8;
    }
  }

  lemma WrittenDigitsDistinct()
    ensures NoDuplicates(WrittenDigits)
  {
    assert forall k :: 0 <= k < 9 ==> WrittenDigits[k] == k;
  }

  /**
   * As written, the one single blank the oracle can fill is a 9, and it fills it with 0: the
   * row of that blank misses only 0 from the alphabet 0..8.
   */
  lemma AsWrittenFillsNineWithZero(t: seq<int>, i: int)
    requires ValidGrid(t) && 0 <= i < 81 && t[i] == 9
    ensures Deduce(Blanked(t, [i]), i, WrittenDigits) == Some(0)
  {
    var inRow := Missing(WrittenDigits, NumbersInRow(Blanked(t, [i]), i));
    SingleBlankRowCandidates(t, i, WrittenDigits);
    assert forall x :: x in inRow ==> x == 0;
    WrittenDigitsDistinct();
    MissingKeepsDistinct(WrittenDigits, NumbersInRow(Blanked(t, [i]), i));
    ExactlyOne(inRow, 0);
  }

  lemma DigitsDistinct()
    ensures NoDuplicates(Digits)
  {
    assert forall k :: 0 <= k < 9 ==> Digits[k] == k + 1;
  }

  lemma ExactlyOne(s: seq<int>, v: int)
    requires NoDuplicates(s) && v in s && forall x :: x in s ==> x == v
    ensures |s| == 1 && s[0] == v
  {
    OnlyMember(s, v);
  }

  /** With the digits 1..9, the row of a single blank misses exactly its own digit. */
  lemma SingleBlankRowMissesOne(t: seq<int>, i: int)
    requires ValidGrid(t) && 0 <= i < 81
    ensures |Missing(Digits, NumbersInRow(Blanked(t, [i]), i))| == 1
    ensures Missing(Digits, NumbersInRow(Blanked(t, [i]), i))[0] == t[i]
  {
    var g := Blanked(t, [i]);
    SingleBlankRowCandidates(t, i, Digits);
    DigitsDistinct();
    MissingKeepsDistinct(Digits, NumbersInRow(g, i));
    ExactlyOne(Missing(Digits, NumbersInRow(g, i)), t[i]);
  }

  /** Corrected alphabet 1..9: a solved grid with a single blank is resolved in one pass. */
  lemma CorrectedAcceptsSingleBlank(t: seq<int>, i: int)
    requires ValidGrid(t) && 0 <= i < 81
    ensures Resolves(Blanked(t, [i]), Digits)
  {
    var g := Blanked(t, [i]);
    SingleBlankIndices(t, i);
    SingleBlankRowMissesOne(t, i);
    assert Deduce(g, i, Digits) == Some(t[i]);
    var full := g[i := Some(t[i])];
    assert PassOver(g, [i], false, Digits) == PassOver(full, [], true, Digits);
    NoEmptyCellIffNoEmptyIndex(full);
  }

  /** On a grid with every cell empty, 1 and 2 are missing from every group and nothing is deduced. */
  lemma NoDeductionOnEmptyGrid(g: Cells, i: int, alphabet: seq<int>)
    requires |g| == 81 && 0 <= i < 81 && forall k :: 0 <= k < 81 ==> g[k].None?
    requires DigitAlphabet(alphabet)
    ensures Deduce(g, i, alphabet).None?
  {
    RowMembers(g, i, 1);
    RowMembers(g, i, 2);
    ColumnMembers(g, i, 1);
    ColumnMembers(g, i, 2);
    assert 1 in alphabet && 2 in alphabet;
    TwoCandidates(g, i, alphabet, 1, 2);
  }

  lemma {:induction false} NothingDeducedOnEmptyGrid(g: Cells, todo: seq<int>, alphabet: seq<int>)
    requires |g| == 81 && forall k :: 0 <= k < 81 ==> g[k].None?
    requires Ascending(todo) && DigitAlphabet(alphabet)
    ensures PassOver(g, todo, false, alphabet) == (g, false)
    decreases |todo|
  {
    if |todo| > 0 {
      NoDeductionOnEmptyGrid(g, todo[0], alphabet);
      NothingDeducedOnEmptyGrid(g, todo[1..], alphabet);
    }
  }

  /** The oracle never accepts a grid with all 81 cells empty. */
  lemma EmptyGridUnresolved(g: Cells, alphabet: seq<int>)
    requires |g| == 81 && forall k :: 0 <= k < 81 ==> g[k].None?
    requires DigitAlphabet(alphabet)
    ensures !Resolves(g, alphabet)
  {
    NothingDeducedOnEmptyGrid(g, EmptyIndices(g, 81), alphabet);
    assert 0 in EmptyIndices(g, 81);
  }
}
