# Sudoku generator and cell selector — a Dafny model

This project models the core of `src/sudoku.js`, a Sudoku library with two entry points.

- `generate` builds a solved 9×9 grid. It works in three steps.
  1. For each of the three bands (three horizontal blocks side by side), it decides which row
     of each block every digit 1..9 goes into. Each digit goes into a different row in each
     of the three blocks (`getPartialBlockRows`, with `get1stBlockY`,
     `get2ndBlockPossibleYs`, `get3rdBlockY`, `get2ndBlockY` and `availableYs`).
  2. It transposes the bands into block columns. For every block column it lists the six
     orderings of each of the nine row triples (`getPermutations`). It then runs an
     odometer-style backtracking search (`getValidPermutation`, with
     `checkColsUntilCurrentRow` and `rotateNextPerm`) for one ordering per row, such that
     the three columns hold distinct digits.
  3. It flattens the three block columns row by row into 81 cells.
- `getRemovableIndices(numbers, amount)` chooses `amount` cells of a solved grid to blank
  out. It draws random cells. A drawn cell stays blank only while a deductive solver
  (`hasUniqueSolution` / `placeNumbers`) can still fill the whole grid back in. The solver
  fills a cell when its row, its column, its block, or the intersection of the three leaves
  exactly one candidate. Every accepted draw resets a budget of 1000 tries, and every
  rejected draw uses one up, so the search gives up after 1000 rejected draws in a row.

Modules:

- `Common`: Option/Result, the random stream and `getRandomElement`.
- `Collections`: `difference`, `nub`, `getDifference`, and facts about duplicate-free lists.
- `Permutations`: `getPermutations`.
- `Grid`: cell coordinates, `getBlockIndex`, and what a solved grid is.
- `Oracle`: `hasUniqueSolution` and `placeNumbers`, with `getNumbersIn*` and `arrAND`.
- `OracleFacts`: soundness and uniqueness of the deduction, and the finding below.
- `BlockRows`: `getPartialBlockRows` and the row pickers.
- `ColumnSearch`: `getValidPermutation`.
- `Generator`: `transpose`, `getValidColumnPermutation`, the flattening, and `generate`.
- `Selector`: `getRemovableIndices` / `_getRemovableIndices`.

Modelling choices:

- `Math.random` becomes a parameter `rand: nat -> nat`. The k-th draw picks
  `xs[rand(k) % |xs|]`.
- A thrown `Error` becomes `Failure` of a `Result`.
- Inside the oracle and in the selector's test grid, a blank cell (`undefined`, or anything
  that is not an integer) is `None` in a `seq<Option<int>>`. The grid passed to
  `getRemovableIndices` is a `seq<int>` without blanks (see Left out).
- The mutable `testSudoku`, `solution` and `activePerms` arrays are Dafny arrays. The
  methods that update them are proved against functions on the array's contents.
- The oracle's candidate alphabet (`allNums`) is a parameter of the deduction functions, of
  `hasUniqueSolution`, of `placeNumbers` and of `getRemovableIndices`. Called with
  `WrittenDigits` (0..8, `seq(9)`), they run the code as written. Called with `Digits` (1..9),
  they run the evidently intended code (see Findings). Soundness and uniqueness are proved for
  both. Under 0..8 the oracle writes 0 where a solution has 9, so "agrees with a solution"
  becomes "consistent with it": every filled cell holds the solution's digit or the alphabet's
  spelling of it (`Symbol`: 9 spelled 0 under 0..8, every digit as itself under 1..9).

## Model

| member | source | states |
|---|---|---|
| Common.RandomElement | src/sudoku.js:261-266 | a random pick from a non-empty list is a member of the list |
| Collections.FirstIndex | src/sudoku.js:110 | `findIndex` answers none exactly when the value is absent; otherwise it returns the first position holding it |
| Collections.RemoveFirst | src/sudoku.js:110-111 | `splice` at the found index removes one element when the value is present and changes nothing when it is absent; the elements before the found index and those after it stay where they were, in order |
| Collections.RemoveFirstKeepsOrder | src/sudoku.js:110-111 | the result of removing the first occurrence is a subsequence of the input: its elements appear in the input in the same order |
| Collections.RemoveFirstMultiset | src/sudoku.js:110-111 | removing the first occurrence removes exactly one copy of the value from the multiset |
| Collections.Difference | src/sudoku.js:107-114 | the multiset difference keeps at least \|m\| − \|s\| elements |
| Collections.DifferenceKeepsOrder | src/sudoku.js:107-114 | `difference` keeps the surviving minuend elements in their original order: the result is a subsequence of the minuend |
| Collections.DifferenceMultiset | src/sudoku.js:107-114 | `difference` is multiset difference: each subtrahend element cancels one copy in the minuend |
| Collections.DifferenceCopy | src/sudoku.js:107-114 | the in-place loop over a copied minuend computes the multiset difference |
| Collections.DifferenceStep | src/sudoku.js:109-112 | one loop step of `difference` removes the next subtrahend element |
| Collections.DifferenceKeepsDistinct | src/sudoku.js:107-114 | the difference of a duplicate-free list is duplicate-free |
| Collections.DifferenceMembers | src/sudoku.js:107-114 | for a duplicate-free minuend, y is in the difference iff y is in the minuend and not in the subtrahend |
| Collections.RemoveFirstMembers | src/sudoku.js:110-111 | in a duplicate-free list, removing x leaves exactly the other members |
| Collections.RemoveFirstKeepsDistinct | src/sudoku.js:110-111 | removing an element keeps a list duplicate-free |
| Collections.Nub | src/sudoku.js:115-117 | `nub` is duplicate-free and has exactly the members of its input |
| Collections.Missing | src/sudoku.js:246-248 | `getDifference` keeps exactly the base values that are not present |
| Collections.MissingKeepsDistinct | src/sudoku.js:246-248 | the missing values of a duplicate-free alphabet are duplicate-free |
| Permutations.Swap | src/sudoku.js:138-142 | one swap step keeps a triple a triple |
| Permutations.SwapChain | src/sudoku.js:130-134 | the chain of swaps yields n − i triples |
| Permutations.GetPermutations | src/sudoku.js:127-143 | six orderings, the first being the input itself |
| Permutations.PermutationsListed | src/sudoku.js:127-143 | the six orderings are exactly abc, bac, bca, cba, cab, acb in this order |
| Permutations.PermutationsArePermutations | src/sudoku.js:127-143 | every listed ordering is a rearrangement of the input (same multiset) |
| Permutations.SwapKeepsDigits | src/sudoku.js:138-142 | a swap step keeps the multiset of the triple |
| Permutations.SwapChainKeepsDigits | src/sudoku.js:130-134 | every triple of the chain keeps the multiset of the start triple |
| Permutations.PermutationsDistinct | src/sudoku.js:127-143 | for three distinct values the six orderings are pairwise different and each is duplicate-free |
| Permutations.PermutationsComplete | src/sudoku.js:127-143 | every rearrangement of three distinct values is among the six orderings |
| Permutations.PermutationMembers | src/sudoku.js:127-143 | each ordering holds exactly the input's values, all distinct |
| Grid.BlockIndex | src/sudoku.js:250-252 | `getBlockIndex` is a block number 0..8, namely (row div 3)·3 + column div 3 |
| Oracle.Present | src/sudoku.js:231-244 | the filled values of a set of cells, and nothing else |
| Oracle.BlockNumbers | src/sudoku.js:241-244 | x is collected iff some earlier cell of the same block holds x |
| Oracle.NumbersInRow | src/sudoku.js:231-234 | `getNumbersInRow` returns at most nine values, each held by some cell of the grid (RowMembers: exactly the values of the index's row) |
| Oracle.NumbersInColumn | src/sudoku.js:236-239 | `getNumbersInColumn` returns at most nine values, each held by some cell of the grid (ColumnMembers: exactly the values of the index's column) |
| Oracle.NumbersInBlock | src/sudoku.js:241-244 | `getNumbersInBlock` holds x iff some cell with the same block index holds x |
| Oracle.ArrAnd | src/sudoku.js:253-255 | `arrAND` keeps exactly the values common to all three lists |
| Oracle.Deduce | src/sudoku.js:194-225 | a deduced value is always taken from the alphabet |
| Oracle.EmptyIndices | src/sudoku.js:189 | the empty indices are exactly the blank cells, in increasing order |
| Oracle.NoEmptyCellIffNoEmptyIndex | src/sudoku.js:189-191 | the grid has no blank iff the list of empty indices is empty |
| Oracle.AscendingSuffix | src/sudoku.js:193 | the rest of an ascending index list is still ascending |
| Oracle.PassOver | src/sudoku.js:193-226 | one pass never overwrites a filled cell; progress is reported iff something was filled; a pass that changes the grid strictly shrinks its set of blanks |
| Oracle.PassOverStep | src/sudoku.js:193-226 | one step of the `reduce`: the first empty index is filled when deducible, and the rest of the pass continues from there |
| Oracle.Pass | src/sudoku.js:193-226 | the `reduce` over all empty indices yields a grid of 81 cells; PassFacts gives what the pass does to it |
| Oracle.Resolves | src/sudoku.js:187-228 | `placeNumbers` accepts only when the grid has no blank or the first pass makes progress; ResolvesStops and ResolvesIffPassesComplete give when it accepts |
| Oracle.PassFacts | src/sudoku.js:193-226 | a full pass over the empty indices never overwrites a filled cell, reports progress iff it changed the grid, and on progress leaves strictly fewer blank cells |
| Oracle.ResolvesStops | src/sudoku.js:187-228 | `placeNumbers` returns true on a grid without blanks, and false when the grid has a blank and a pass changes nothing |
| Oracle.PlacePass | src/sudoku.js:188-226 | the in-place pass over the `solution` array computes the functional pass (new cells and progress flag) over the given alphabet: `allNums` as written (0..8) or as intended (1..9) |
| Oracle.HasUniqueSolution | src/sudoku.js:180-229 | throws (Failure) iff the grid does not have 81 cells; otherwise answers whether repeated passes over the given alphabet (0..8 as written at :183, or 1..9) fill every cell; a grid without blanks is accepted |
| OracleFacts.Symbol | src/sudoku.js:183 | how an alphabet spells a solution digit 1..9, always as a member of the alphabet: 0..8 spells 9 as 0 and 1..8 as themselves, 1..9 spells every digit as itself |
| OracleFacts.AgreesConsistent | src/sudoku.js:167-169 | a grid that agrees with a solution cell for cell is consistent with it under any alphabet |
| OracleFacts.RowMembers | src/sudoku.js:231-234 | `getNumbersInRow` holds x iff some cell of the same row holds x |
| OracleFacts.ColumnMembers | src/sudoku.js:236-239 | `getNumbersInColumn` holds x iff some cell of the same column holds x |
| OracleFacts.SolutionDigitIsMissing | src/sudoku.js:195-211 | under either alphabet, the spelling of a blank cell's digit in any solution consistent with the grid is missing from its row, its column and its block |
| OracleFacts.DeduceSound | src/sudoku.js:194-225 | under either alphabet, whatever the deduction writes into a blank is the spelling of the digit every consistent solution has there: that digit itself under 1..9, and 0 for a 9 under 0..8 |
| OracleFacts.PassOverSound | src/sudoku.js:193-226 | under either alphabet, a pass keeps the grid consistent with every solution it was consistent with |
| OracleFacts.UniqueCompletion | src/sudoku.js:180-229 | under either alphabet, if the oracle accepts a grid, at most one solved grid is consistent with it: acceptance implies a unique solution |
| OracleFacts.StuckStaysStuck | src/sudoku.js:228 | for any alphabet, a pass that changes nothing stops the recursion for good |
| OracleFacts.ResolvesIffPassesComplete | src/sudoku.js:187-228 | for any alphabet, the oracle accepts iff some number of passes leaves no blank |
| OracleFacts.TwoCandidates | src/sudoku.js:195-223 | two candidates common to row, column and block mean no deduction for the cell |
| OracleFacts.StuckSingleBlank | src/sudoku.js:187-228 | if the only blank cannot be deduced, the grid is rejected |
| OracleFacts.BlankedAgrees | src/sudoku.js:167-169 | blanking cells of a solution leaves a grid that agrees with it |
| OracleFacts.ZeroAlwaysMissing | src/sudoku.js:183 | with the alphabet 0..8, 0 is missing from every row, column and block of a grid filled with 1..9 |
| OracleFacts.AsWrittenDeducesNothing | src/sudoku.js:183 | with the alphabet 0..8, a lone blank whose digit is not 9 cannot be deduced |
| OracleFacts.AsWrittenRejectsSingleBlank | src/sudoku.js:183 | with the alphabet 0..8, a solved grid with one blank whose digit is 1..8 is rejected |
| OracleFacts.OtherDigitPresentInRow | src/sudoku.js:231-234 | in a solved grid with one blank, every other digit is still present in that row |
| OracleFacts.SingleBlankRowCandidates | src/sudoku.js:195 | under either alphabet, the spelling of a lone blank's digit is missing from its row, and every other missing value lies outside 1..9 (only 0 under 0..8) |
| OracleFacts.SingleBlankRowCandidate | src/sudoku.js:195 | a missing value 1..9 in the row of a lone blank is the blank's own digit, spelled by the alphabet |
| OracleFacts.SpelledAsItself | src/sudoku.js:183 | a digit 1..9 that belongs to the alphabet is spelled as itself |
| OracleFacts.WrittenDigitsDistinct | src/sudoku.js:183 | `seq(9)` is duplicate-free |
| OracleFacts.AsWrittenFillsNineWithZero | src/sudoku.js:183 | with the alphabet 0..8, a lone blank whose digit is 9 is deduced as 0, not 9 |
| OracleFacts.SingleBlankRowMissesOne | src/sudoku.js:195-199 | with the alphabet 1..9, a lone blank misses exactly its own digit in its row |
| OracleFacts.CorrectedAcceptsSingleBlank | src/sudoku.js:183 | with the alphabet 1..9, a solved grid with one blank is accepted |
| OracleFacts.NoDeductionOnEmptyGrid | src/sudoku.js:194-225 | under either alphabet, on an all-blank grid no cell can be deduced |
| OracleFacts.NothingDeducedOnEmptyGrid | src/sudoku.js:193-226 | under either alphabet, a pass over an all-blank grid changes nothing and reports no progress |
| OracleFacts.EmptyGridUnresolved | src/sudoku.js:187-228 | under either alphabet, an all-blank grid is rejected |
| BlockRows.AvailableYsMembers | src/sudoku.js:58-60 | a row 0..2 is available iff fewer than three digits were placed in it |
| BlockRows.AvailableYs | src/sudoku.js:58-60 | `availableYs` only ever offers rows 0..2 |
| BlockRows.SlotCounts | src/sudoku.js:59 | `seq(9).map(mod(3))` offers each row 0..2 exactly three times |
| BlockRows.Get1stBlockY | src/sudoku.js:41-43 | the first block's row is an available row |
| BlockRows.Get2ndBlockPossibleYs | src/sudoku.js:44-48 | exactly the rows other than y1 that still have room, without duplicates |
| BlockRows.Get3rdBlockY | src/sudoku.js:52-56 | the third block's row differs from y1, has room, and is not the second block's only option |
| BlockRows.Get2ndBlockY | src/sudoku.js:49-51 | the second block's row differs from y1 and y3 and has room |
| BlockRows.CountsLeaveRoom | src/sudoku.js:19-22 | when the three blocks have placed the same number of digits with distinct rows, the second and third blocks keep a free row other than y1, and the two cannot both be full in the same row |
| BlockRows.FirstBlockHasRoom | src/sudoku.js:20 | the first block always has an available row before the ninth digit |
| BlockRows.ThirdBlockHasRoom | src/sudoku.js:21 | the picks for the second and third blocks are never from an empty list |
| BlockRows.SecondBlockHasRoom | src/sudoku.js:22 | after the third pick, the second block still has a row left |
| BlockRows.NextRows | src/sudoku.js:20-22 | the three rows picked for one digit are pairwise distinct and each has room |
| BlockRows.CountPush | src/sudoku.js:24-26 | pushing a placement raises the count of its row by one and leaves other rows alone |
| BlockRows.PushKeepsPartial | src/sudoku.js:19-27 | one digit pushed to all three blocks keeps the band-in-progress invariant |
| BlockRows.PushKeepsBalanced | src/sudoku.js:24-26 | one push keeps the row counts of the three blocks balanced |
| BlockRows.FullStacksFormBand | src/sudoku.js:19-27 | after nine digits each block has every row holding three digits, and each digit's three rows are distinct |
| BlockRows.FillBand | src/sudoku.js:15-28 | one band: nine digits, each placed in distinct rows of the three blocks, every row of every block holding three digits |
| BlockRows.PartialBlockRows | src/sudoku.js:13-31 | three such bands |
| ColumnSearch.Picked | src/sudoku.js:68 | the chosen ordering of every row is one of that row's orderings |
| ColumnSearch.PrefixValidIsColumnsDistinct | src/sudoku.js:81-91 | checking every row is the same as all three columns holding distinct values |
| ColumnSearch.PrefixValidIsDistinctColumns | src/sudoku.js:81-91 | the rows up to n pass the check iff each column up to n is duplicate-free |
| ColumnSearch.CheckColsUntilCurrentRow | src/sudoku.js:81-91 | answers true iff the columns of rows 0..row are free of duplicates |
| ColumnSearch.CountsOneForEachColumn | src/sudoku.js:82-90 | counting each value per column and testing that every count is 1 is the same as the columns of rows 0..row being free of duplicates |
| ColumnSearch.RotateNextPerm | src/sudoku.js:93-101 | advances the odometer at row (carrying into earlier rows when a row is exhausted) and reports the row to resume from, or none when every row down to 0 was at its last ordering |
| ColumnSearch.ValueBelowSize | src/sudoku.js:93-101 | the odometer reading is below the number of states |
| ColumnSearch.LexLessValue | src/sudoku.js:93-101 | an odometer state that is lexicographically smaller has a smaller reading |
| ColumnSearch.RotationSkipsOnlyFailedPrefix | src/sudoku.js:93-101 | every state skipped by a rotation is either older or shares the failing prefix |
| ColumnSearch.FailedPrefixRulesOut | src/sudoku.js:81-91 | a state sharing a failing prefix is never valid |
| ColumnSearch.RotationStep | src/sudoku.js:71-101 | a rotation after a failed check skips no valid state and strictly advances the odometer |
| ColumnSearch.SearchExhausted | src/sudoku.js:93-101 | when rotation runs past row 0, no choice of orderings is valid |
| ColumnSearch.GetValidPermutation | src/sudoku.js:61-102 | returns one ordering per row with all three columns distinct, and no choice earlier in odometer order has distinct columns; when the odometer runs out, no valid choice exists |
| Generator.Transpose | src/sudoku.js:104-106 | `transpose` swaps the two outer dimensions |
| Generator.TransposeTwice | src/sudoku.js:104-106 | transposing twice gives back the input |
| Generator.NumsAtMembers | src/sudoku.js:35 | the digits a block placed in row y are exactly those whose placement chose y |
| Generator.NumsAt | src/sudoku.js:35 | the digits a block placed in row y are at most as many as the block's placements, and each was placed in row y |
| Generator.NumsAtLength | src/sudoku.js:35 | the row's digit list is as long as the row's count |
| Generator.NumsAtDistinct | src/sudoku.js:35 | the row's digit list is duplicate-free |
| Generator.RowTriple | src/sudoku.js:35 | in a full block, each row holds three distinct digits |
| Generator.AllPermutations | src/sudoku.js:33-36 | nine rows, each with six orderings of a triple |
| Generator.FirstOrdering | src/sudoku.js:33-36 | the first ordering of each top row is the row's digits as placed |
| Generator.TopRowsCompatible | src/sudoku.js:64 | the first orderings of the three rows of the top block never clash in a column |
| Generator.GetValidColumnPermutation | src/sudoku.js:32-39 | a found column places each row's digits in some order with distinct columns; none means no valid choice exists |
| Generator.PickedRowsAreOrderings | src/sudoku.js:32-39 | a column-distinct choice of orderings is a proper block column |
| Generator.BandRowsDiffer | src/sudoku.js:19-27 | within a band, a digit sits in different rows of different blocks |
| Generator.RowsOfBlockDisjoint | src/sudoku.js:35 | within a block, a digit sits in one row only |
| Generator.BandColumn | src/sudoku.js:9 | transposing the bands gives block columns whose b-th block is band b's j-th block |
| Generator.OrderedColumnsLayout | src/sudoku.js:9 | three ordered block columns over the three bands form the generator's layout |
| Generator.FlattenIndex | src/sudoku.js:10 | cell 9i + 3j + c of the flat grid is digit c of row i in block column j |
| Generator.GridRow | src/sudoku.js:10 | one grid row is nine cells, with digit c of block column j at position 3j + c |
| Generator.Flatten | src/sudoku.js:10 | the first n grid rows flatten to 9n cells |
| Generator.FlatCell | src/sudoku.js:10 | every flat cell is the digit at its block column, row and position |
| Generator.DigitInRange | src/sudoku.js:8-10 | every placed digit is 1..9 |
| Generator.SameRowDiffer | src/sudoku.js:8-10 | two cells of one grid row differ |
| Generator.SameBlockDiffer | src/sudoku.js:8-10 | two cells of one block differ |
| Generator.PeersDiffer | src/sudoku.js:8-10 | two distinct cells sharing a row, column or block differ |
| Generator.LayoutDigits | src/sudoku.js:10 | the flat grid has 81 cells, each 1..9 |
| Generator.LayoutPeers | src/sudoku.js:10 | the flat grid has distinct digits among peers |
| Generator.LayoutIsSolved | src/sudoku.js:8-10 | the flattened layout is a solved Sudoku |
| Generator.Generate | src/sudoku.js:8-10 | any grid produced is a solved Sudoku |
| Selector.Range | src/sudoku.js:258-260 | `seq(n)` lists 0..n−1, each at its own position |
| Selector.AllIndicesListed | src/sudoku.js:150 | `seq(81)` lists every cell once |
| Selector.StartPool | src/sudoku.js:150-152 | before the first draw the pool is every cell and nothing is chosen |
| Selector.AcceptStep | src/sudoku.js:171-173 | accepting a cell moves it from the pool to the result; the pool stays exactly the cells not yet chosen |
| Selector.NothingRemovedIsRemovable | src/sudoku.js:160 | the empty list is always a valid result |
| Selector.SomeCellKept | src/sudoku.js:166 | under either alphabet, some cell is never chosen, because an all-blank grid is rejected |
| Selector.PoolNotEmpty | src/sudoku.js:166 | the pool `getRandomElement` draws from is never empty |
| Selector.RemovedCellsHaveOneCompletion | src/sudoku.js:145-178 | under either alphabet, when a removable list of cells is blanked in a solved grid, every solved grid that matches the cells left filled is that same grid |
| Selector.BlankOneMore | src/sudoku.js:169 | blanking one more index updates only that cell |
| Selector.Removal | src/sudoku.js:159-178 | `_getRemovableIndices` draw by draw: fewer than 1000 rejections before each accepted cell (the budget resets on acceptance); a run gives up only after as many rejections in a row as its remaining budget, returning the empty list; otherwise it accepts exactly `remaining` cells, appends them to `acc`, and the result is removable |
| Selector.DrawStep | src/sudoku.js:166-177 | one draw: an accepted cell continues the run with one cell fewer in the pool and a full budget, a rejected one with one try fewer |
| Selector.InitialRun | src/sudoku.js:150-152 | the call with `amount`, `[]` and 1000 tries: gives up (with the empty list) only after the last 1000 draws were all rejected and no earlier 1000 in a row were; otherwise accepts exactly `amount` removable cells and stops drawing |
| Selector.Selection | src/sudoku.js:152-156 | the length check: a removable list of exactly `amount` cells or the empty list, never more than 80 cells; for a positive `amount` the list is empty iff the run gave up; `amount` 0 gives the empty list with no draw at all |
| Selector.Outcome | src/sudoku.js:154-156 | the run's list is returned iff it has exactly `amount` cells, and the empty list otherwise |
| Selector.TryBlank | src/sudoku.js:166-176 | blanks the drawn cell and keeps it blank iff the oracle over the given alphabet accepts the result, otherwise writes the digit back |
| Selector.GetRemovableIndices | src/sudoku.js:145-178 | throws iff the grid does not have 81 cells; otherwise the in-place loop over `testSudoku` and `indices` returns exactly `Selection` for the same draws and alphabet (0..8 as written, 1..9 corrected) |

## Left out

- `Math.random`: the model takes an arbitrary stream of draws and proves every property for all
  streams. The uniform distribution is not modelled.
- `console.warn` at src/sudoku.js:162 is output only and is not modelled.
- `Object.freeze` and the module wrapper at src/sudoku.js:1-5 are not modelled.
- The helpers `seq`, `add`, `mod` and `eq` are inlined as Dafny sequence comprehensions and
  operators.
- Generator.Generate: returns `None` if some block-column search is exhausted. The source
  would then crash on `ppr[-1]` in `rotateNextPerm`. That the search always succeeds on the
  bands the generator builds is not proved, because it needs an edge-colouring argument
  outside this model.
- ColumnSearch.GetValidPermutation: requires that the first orderings of rows 0..2 never
  share a column value. That is the assumption the source's start row of 3 relies on
  (src/sudoku.js:64), and Generator.TopRowsCompatible proves it holds for every block column
  the generator builds, which is the only call site. Input that breaks it is not modelled: with
  three rows the source returns the unchecked first orderings, and with four or more rows a
  carry can move back to rows 0..2, where the source re-checks them.
- OracleFacts.UniqueCompletion: uniqueness is proved in the direction the selector relies on.
  If the oracle accepts, at most one solution agrees. The converse, that every uniquely
  solvable grid is accepted, is false for a purely deductive solver and is not claimed.
- A non-integer `amount` is not modelled (the model takes an `int`). A negative `amount`
  never counts down to 0, in the source as in the model, so the search ends after 1000
  rejected draws and returns the empty list.
- Grids whose cells hold values other than integers and `undefined` are modelled as integers
  and `None`.
- Selector.GetRemovableIndices: takes a grid of integers (`seq<int>`). A grid that already
  holds `undefined` cells, which the source accepts at src/sudoku.js:145-149, is not modelled.
  The only call site, app.js:63-67, passes a freshly generated grid from the separate
  `Sudoku.Generation` module, which is not part of this model.

## Findings

| source | as written | input that shows it | evidently intended | confidence | as-written member | corrected member |
|---|---|---|---|---|---|---|
| src/sudoku.js:183 | `allNums = seq(9)` makes the candidate alphabet 0..8, while generated grids hold 1..9 | any solved grid with a single blank cell whose digit is 1..8: 0 and the blanked digit are both missing, so no deduction ever applies and the grid is rejected | the alphabet 1..9 (`seq(9).map(add(1))`), under which a lone blank is always deduced | not executed | OracleFacts.AsWrittenRejectsSingleBlank | OracleFacts.CorrectedAcceptsSingleBlank |
| src/sudoku.js:183 | with the alphabet 0..8 a blank whose digit is 9 can only be filled with 0 | any solved grid with a single blank cell whose digit is 9: 0 is the only candidate left in its row, so 0 is written | the alphabet 1..9, under which the deduction writes the solution's own digit | not executed | OracleFacts.AsWrittenFillsNineWithZero | OracleFacts.DeduceSound |
