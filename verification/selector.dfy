/**
 * Choosing the cells to blank out of a solved grid (getRemovableIndices): random cells are
 * blanked one at a time and kept blank only while the deductive oracle still fills the whole
 * grid back in. The oracle's alphabet is a parameter: WrittenDigits runs the code as written,
 * Digits the corrected code.
 */
module Selector {
  import opened Common
  import opened Collections
  import opened Grid
  import opened Oracle
  import opened OracleFacts

  /** maxTries: consecutive rejected draws after which the search gives up. */
  const MaxTries := 1000

  /** seq(n): 0, 1, ..., n - 1. */
  function Range(n: nat): (r: seq<int>)
    ensures |r| == n && forall k :: 0 <= k < n ==> r[k] == k
  {
    if n == 0 then [] else Range(n - 1) + [n - 1]
  }

  /** seq(81): every cell index, in order. */
  const AllIndices: seq<int> := Range(81)

  lemma AllIndicesListed()
    ensures NoDuplicates(AllIndices) && |AllIndices| == 81
    ensures forall k :: k in AllIndices <==> 0 <= k < 81
  {
    forall k | 0 <= k < 81 ensures k in AllIndices {
      assert AllIndices[k] == k;
    }
  }

  /** The `indices` pool: every cell not yet chosen, each once. */
  ghost predicate Pool(indices: seq<int>, acc: seq<int>) {
    NoDuplicates(indices) && |indices| + |acc| == 81 &&
    forall k :: k in indices <==> 0 <= k < 81 && k !in acc
  }

  /** Before the first draw every cell is in the pool. */
  lemma StartPool()
    ensures Pool(AllIndices, [])
  {
    AllIndicesListed();
  }

  /**
   * A list of cells that may be blanked together: distinct cell indices, and with all of them
   * blanked the oracle still completes the grid.
   */
  predicate Removable(numbers: seq<int>, removed: seq<int>, alphabet: seq<int>)
    requires |numbers| == 81
  {
    NoDuplicates(removed) &&
    (forall k :: 0 <= k < |removed| ==> 0 <= removed[k] < 81) &&
    Resolves(Blanked(numbers, removed), alphabet)
  }

  /**
   * Accepting a drawn cell: the pool loses it and the list gains it, and pool and list still
   * split the 81 cells between them.
   */
  lemma AcceptStep(indices: seq<int>, acc: seq<int>, index: int)
    requires Pool(indices, acc) && NoDuplicates(acc) && index in indices
    ensures Pool(RemoveFirst(indices, index), acc + [index])
    ensures NoDuplicates(acc + [index])
  {
    RemoveFirstKeepsDistinct(indices, index);
    forall y ensures y in RemoveFirst(indices, index) <==> y in indices && y != index {
      RemoveFirstMembers(indices, index, y);
    }
  }

  /** With nothing blanked the oracle has nothing to do: the empty list is always removable. */
  lemma NothingRemovedIsRemovable(numbers: seq<int>, alphabet: seq<int>)
    requires |numbers| == 81
    ensures Removable(numbers, [], alphabet)
  {
    NoEmptyCellIffNoEmptyIndex(Blanked(numbers, []));
  }

  /** Some cell always stays filled: the oracle cannot complete a grid with every cell blank. */
  lemma SomeCellKept(numbers: seq<int>, removed: seq<int>, alphabet: seq<int>) returns (k: int)
    requires |numbers| == 81 && DigitAlphabet(alphabet) && Removable(numbers, removed, alphabet)
    ensures 0 <= k < 81 && k !in removed
  {
    if forall j :: 0 <= j < 81 ==> j in removed {
      EmptyGridUnresolved(Blanked(numbers, removed), alphabet);
      assert false;
    }
    k :| 0 <= k < 81 && k !in removed;
  }

  /** So the pool never runs dry while cells are drawn from it. */
  lemma PoolNotEmpty(numbers: seq<int>, indices: seq<int>, acc: seq<int>, alphabet: seq<int>)
    requires |numbers| == 81 && DigitAlphabet(alphabet) && Removable(numbers, acc, alphabet)
    requires Pool(indices, acc)
    ensures |indices| > 0
  {
    var kept := SomeCellKept(numbers, acc, alphabet);
    assert kept in indices;
  }

  /**
   * The point of the selection: a solved grid is the only solved grid that agrees with the
   * cells left after a removable list is blanked, under either alphabet.
   */
  lemma RemovedCellsHaveOneCompletion(numbers: seq<int>, removed: seq<int>, s: seq<int>, alphabet: seq<int>)
    requires ValidGrid(numbers) && DigitAlphabet(alphabet) && Removable(numbers, removed, alphabet)
    requires ValidGrid(s) && Agrees(Blanked(numbers, removed), s)
    ensures s == numbers
  {
    BlankedAgrees(numbers, removed);
    AgreesConsistent(Blanked(numbers, removed), s, alphabet);
    AgreesConsistent(Blanked(numbers, removed), numbers, alphabet);
    UniqueCompletion(Blanked(numbers, removed), s, numbers, alphabet);
  }

  /** Blanking one more cell. */
  lemma BlankOneMore(numbers: seq<int>, removed: seq<int>, index: int)
    requires |numbers| == 81 && 0 <= index < 81
    ensures Blanked(numbers, removed + [index]) == Blanked(numbers, removed)[index := None]
  {
    forall k | 0 <= k < 81 ensures (k in removed + [index]) <==> (k in removed || k == index) {
    }
  }

  /**
   * The course of one run of _getRemovableIndices: the list it returns, how many draws were
   * rejected just before each accepted cell, how many were rejected after the last accepted
   * one, and whether it gave up.
   */
  datatype Run = Run(result: seq<int>, gaps: seq<nat>, trailing: nat, gaveUp: bool)

  /**
   * _getRemovableIndices(remaining, acc, remainingTries), with the pool `indices` and the
   * position `draw` in the random stream made explicit. The test grid is the solved grid
   * with `acc` blanked. Each draw takes a random pool cell; the cell is accepted when the
   * oracle still completes the grid with it blanked, which resets the budget to MaxTries,
   * and rejected otherwise, which uses up one try.
   *
   * Started with a full budget, a run therefore gives up exactly after MaxTries rejected
   * draws in a row, and before each accepted cell fewer than MaxTries draws were rejected.
   */
  function Removal(numbers: seq<int>, alphabet: seq<int>, rand: RandomStream, draw: nat,
                   indices: seq<int>, acc: seq<int>, remaining: int, tries: nat): (r: Run)
    requires |numbers| == 81 && DigitAlphabet(alphabet)
    requires Removable(numbers, acc, alphabet) && Pool(indices, acc) && tries <= MaxTries
    ensures forall k :: 0 <= k < |r.gaps| ==> r.gaps[k] < MaxTries
    ensures |r.gaps| > 0 ==> r.gaps[0] < tries
    ensures r.gaveUp ==> (r.result == [] && remaining != |r.gaps| &&
                          r.trailing == (if |r.gaps| == 0 then tries else MaxTries))
    ensures !r.gaveUp ==> (r.trailing == 0 && remaining == |r.gaps| &&
                           |r.result| == |acc| + remaining && r.result[..|acc|] == acc &&
                           Removable(numbers, r.result, alphabet) && |r.result| <= 80)
    decreases |indices|, tries
  {
    if remaining == 0 then
      PoolNotEmpty(numbers, indices, acc, alphabet);
      Run(acc, [], 0, false)
    else if tries == 0 then
      Run([], [], 0, true)
    else
      PoolNotEmpty(numbers, indices, acc, alphabet);
      var index := RandomElement(indices, rand(draw));
      if Resolves(Blanked(numbers, acc + [index]), alphabet) then
        AcceptStep(indices, acc, index);
        var rest := Removal(numbers, alphabet, rand, draw + 1, RemoveFirst(indices, index), acc + [index], remaining - 1, MaxTries);
        AcceptedGaps(rest, acc, index, remaining);
        Accepted(rest)
      else
        var rest := Removal(numbers, alphabet, rand, draw + 1, indices, acc, remaining, tries - 1);
        RejectedGaps(rest, tries);
        Rejected(rest)
  }

  /** One draw of Removal: the run continues from the pool and list the draw leaves. */
  lemma DrawStep(numbers: seq<int>, alphabet: seq<int>, rand: RandomStream, draw: nat,
                 indices: seq<int>, acc: seq<int>, remaining: int, tries: nat)
    requires |numbers| == 81 && DigitAlphabet(alphabet)
    requires Removable(numbers, acc, alphabet) && Pool(indices, acc) && tries <= MaxTries
    requires remaining != 0 && tries != 0 && |indices| > 0
    ensures var index := RandomElement(indices, rand(draw));
      if Resolves(Blanked(numbers, acc + [index]), alphabet) then
        Removable(numbers, acc + [index], alphabet) && Pool(RemoveFirst(indices, index), acc + [index]) &&
        Removal(numbers, alphabet, rand, draw, indices, acc, remaining, tries).result ==
        Removal(numbers, alphabet, rand, draw + 1, RemoveFirst(indices, index), acc + [index], remaining - 1, MaxTries).result
      else
        Removal(numbers, alphabet, rand, draw, indices, acc, remaining, tries).result ==
        Removal(numbers, alphabet, rand, draw + 1, indices, acc, remaining, tries - 1).result
  {
    var index := RandomElement(indices, rand(draw));
    if Resolves(Blanked(numbers, acc + [index]), alphabet) {
      AcceptStep(indices, acc, index);
    }
  }

  /** An accepted draw: no rejection before it. */
  function Accepted(rest: Run): (r: Run)
    ensures r.result == rest.result && r.trailing == rest.trailing && r.gaveUp == rest.gaveUp
    ensures |r.gaps| == |rest.gaps| + 1 && r.gaps[0] == 0
    ensures forall k :: 1 <= k < |r.gaps| ==> r.gaps[k] == rest.gaps[k - 1]
  {
    rest.(gaps := [0] + rest.gaps)
  }

  /** An acceptance keeps every gap below MaxTries and extends the list it was given. */
  lemma AcceptedGaps(rest: Run, acc: seq<int>, index: int, remaining: int)
    requires forall k :: 0 <= k < |rest.gaps| ==> rest.gaps[k] < MaxTries
    requires rest.gaveUp ==> (rest.result == [] && remaining - 1 != |rest.gaps| &&
                              rest.trailing == MaxTries)
    requires !rest.gaveUp ==> (rest.trailing == 0 && remaining - 1 == |rest.gaps| &&
                               |rest.result| == |acc| + 1 + (remaining - 1) && rest.result[..|acc| + 1] == acc + [index])
    ensures forall k :: 0 <= k < |Accepted(rest).gaps| ==> Accepted(rest).gaps[k] < MaxTries
    ensures Accepted(rest).gaveUp ==> (remaining != |Accepted(rest).gaps| && Accepted(rest).trailing == MaxTries)
    ensures !Accepted(rest).gaveUp ==> (remaining == |Accepted(rest).gaps| &&
                                        |rest.result| == |acc| + remaining && rest.result[..|acc|] == acc)
  {
    var r := Accepted(rest);
    forall k | 0 <= k < |r.gaps| ensures r.gaps[k] < MaxTries {
      if k > 0 { assert r.gaps[k] == rest.gaps[k - 1]; }
    }
    if !rest.gaveUp {
      PrefixOfExtension(acc, index, rest.result);
    }
  }

  /** A rejection keeps every gap below MaxTries when the run it extends had one try fewer. */
  lemma RejectedGaps(rest: Run, tries: nat)
    requires 0 < tries <= MaxTries
    requires forall k :: 0 <= k < |rest.gaps| ==> rest.gaps[k] < MaxTries
    requires |rest.gaps| > 0 ==> rest.gaps[0] < tries - 1
    ensures forall k :: 0 <= k < |Rejected(rest).gaps| ==> Rejected(rest).gaps[k] < MaxTries
    ensures |Rejected(rest).gaps| > 0 ==> Rejected(rest).gaps[0] < tries
  {
    var r := Rejected(rest);
    forall k | 0 <= k < |r.gaps| ensures r.gaps[k] < MaxTries {
      if k > 0 { assert r.gaps[k] == rest.gaps[k]; }
    }
  }

  /** A rejected draw: one more rejection before the next accepted cell, or at the end. */
  function Rejected(rest: Run): (r: Run)
    ensures r.result == rest.result && r.gaveUp == rest.gaveUp && |r.gaps| == |rest.gaps|
    ensures |r.gaps| > 0 ==> r.gaps[0] == rest.gaps[0] + 1 && r.trailing == rest.trailing
    ensures |r.gaps| == 0 ==> r.trailing == rest.trailing + 1
    ensures forall k :: 1 <= k < |r.gaps| ==> r.gaps[k] == rest.gaps[k]
  {
    if |rest.gaps| > 0 then rest.(gaps := [rest.gaps[0] + 1] + rest.gaps[1..])
    else rest.(trailing := rest.trailing + 1)
  }

  lemma PrefixOfExtension(acc: seq<int>, index: int, s: seq<int>)
    requires |s| >= |acc| + 1 && s[..|acc| + 1] == acc + [index]
    ensures s[..|acc|] == acc
  {
    assert s[..|acc|] == s[..|acc| + 1][..|acc|];
  }

  /** The length check at the end of getRemovableIndices. */
  function Outcome(run: Run, amount: int): (r: seq<int>)
    ensures |run.result| == amount ==> r == run.result
    ensures |run.result| != amount ==> r == []
    ensures |r| == amount || r == []
  {
    if |run.result| == amount then run.result else []
  }

  /**
   * The call _getRemovableIndices(amount, [], maxTries) that getRemovableIndices makes. Fewer
   * than MaxTries draws are rejected before each accepted cell; the run gives up only once
   * MaxTries draws in a row have been rejected after the last accepted cell, and then returns
   * the empty list. Otherwise it accepts exactly `amount` cells and makes no further draw.
   */
  function InitialRun(numbers: seq<int>, amount: int, rand: RandomStream, alphabet: seq<int>): (r: Run)
    requires |numbers| == 81 && DigitAlphabet(alphabet)
    ensures forall k :: 0 <= k < |r.gaps| ==> r.gaps[k] < MaxTries
    ensures r.gaveUp ==> (r.result == [] && r.trailing == MaxTries && |r.gaps| != amount)
    ensures !r.gaveUp ==> (r.trailing == 0 && |r.gaps| == amount && |r.result| == amount &&
                           Removable(numbers, r.result, alphabet))
  {
    NothingRemovedIsRemovable(numbers, alphabet);
    StartPool();
    Removal(numbers, alphabet, rand, 0, AllIndices, [], amount, MaxTries)
  }

  /**
   * getRemovableIndices on a grid of 81 cells: the run's list when it has `amount` cells,
   * otherwise the empty list. For a positive amount the list is empty exactly when the run
   * gave up; a zero amount draws nothing.
   */
  function Selection(numbers: seq<int>, amount: int, rand: RandomStream, alphabet: seq<int>): (r: seq<int>)
    requires |numbers| == 81 && DigitAlphabet(alphabet)
    ensures Removable(numbers, r, alphabet) && |r| <= 80
    ensures |r| == amount || r == []
    ensures amount > 0 ==> (|r| == 0 <==> InitialRun(numbers, amount, rand, alphabet).gaveUp)
    ensures amount == 0 ==> r == [] && InitialRun(numbers, amount, rand, alphabet).gaps == [] &&
                            InitialRun(numbers, amount, rand, alphabet).trailing == 0
  {
    NothingRemovedIsRemovable(numbers, alphabet);
    Outcome(InitialRun(numbers, amount, rand, alphabet), amount)
  }

  /**
   * One draw of _getRemovableIndices: blank cell `index` of the test grid; keep it blank when
   * the oracle still completes the grid, otherwise write its digit back.
   */
  method TryBlank(testSudoku: array<Option<int>>, numbers: seq<int>, acc: seq<int>, index: int, alphabet: seq<int>)
    returns (accepted: bool)
    requires |numbers| == 81 && testSudoku.Length == 81 && 0 <= index < 81 && index !in acc
    requires testSudoku[..] == Blanked(numbers, acc)
    modifies testSudoku
    ensures accepted <==> Resolves(Blanked(numbers, acc + [index]), alphabet)
    ensures testSudoku[..] == Blanked(numbers, if accepted then acc + [index] else acc)
  {
    var candidate := testSudoku[index];
    testSudoku[index] := None;
    BlankOneMore(numbers, acc, index);
    var unique := HasUniqueSolution(testSudoku[..], alphabet);
    accepted := unique.value;
    if !accepted {
      testSudoku[index] := candidate;
    }
  }

  /**
   * getRemovableIndices with _getRemovableIndices: throws unless the grid has 81 cells;
   * otherwise draws cells as Removal describes, blanking them in the test grid in place, and
   * returns what Selection says.
   */
  method GetRemovableIndices(numbers: seq<int>, amount: int, rand: RandomStream, alphabet: seq<int>)
    returns (r: Result<seq<int>>)
    requires DigitAlphabet(alphabet)
    ensures r.Failure? <==> |numbers| != 81
    ensures r.Success? ==> |numbers| == 81 && r.value == Selection(numbers, amount, rand, alphabet)
  {
    if |numbers| != 81 {
      return Failure("'numbers' must be an array with 81 elements");
    }
    var testSudoku := new Option<int>[81](k requires 0 <= k < 81 => Some(numbers[k]));
    var indices := AllIndices;
    var acc: seq<int> := [];
    var remaining := amount;
    var remainingTries: nat := MaxTries;
    var draw: nat := 0;
    assert testSudoku[..] == Blanked(numbers, acc);
    NothingRemovedIsRemovable(numbers, alphabet);
    StartPool();
    ghost var run := InitialRun(numbers, amount, rand, alphabet);
    while remaining != 0 && remainingTries != 0
      invariant testSudoku[..] == Blanked(numbers, acc)
      invariant Removable(numbers, acc, alphabet) && Pool(indices, acc) && remainingTries <= MaxTries
      invariant run.result == Removal(numbers, alphabet, rand, draw, indices, acc, remaining, remainingTries).result
      decreases |indices|, remainingTries
    {
      PoolNotEmpty(numbers, indices, acc, alphabet);
      DrawStep(numbers, alphabet, rand, draw, indices, acc, remaining, remainingTries);
      var index := RandomElement(indices, rand(draw));
      var accepted := TryBlank(testSudoku, numbers, acc, index, alphabet);
      draw := draw + 1;
      if accepted {
        indices := RemoveFirst(indices, index);
        acc := acc + [index];
        remaining := remaining - 1;
        remainingTries := MaxTries;
      } else {
        remainingTries := remainingTries - 1;
      }
    }
    var removableIndices := if remaining == 0 then acc else [];
    if |removableIndices| == amount {
      r := Success(removableIndices);
    } else {
      r := Success([]);
    }
  }
}
