/**
 * `getPartialBlockRows` of src/sudoku.js: for each band of three blocks, every digit 1..9 is
 * given a row (0..2) inside each of the three blocks, so that the three rows differ. The rows
 * are drawn at random among those still open; the model proves the draws never face an empty
 * list, whatever the random stream.
 */
module BlockRows {
  import opened Common
  import opened Collections

  /** One `{ num, y }` entry of a partial block: digit `num` goes to row `y` of its block. */
  datatype Placement = Placement(num: int, y: int)

  function YsOf(block: seq<Placement>): seq<int> {
    seq(|block|, k requires 0 <= k < |block| => block[k].y)
  }

  /** The row indices of a block. */
  const RowIndices: seq<int> := [0, 1, 2]

  /** `seq(9).map(mod(3))`, that is 0, 1, 2, 0, 1, 2, 0, 1, 2: each block row offers three slots. */
  const Slots: seq<int> := RowIndices + RowIndices + RowIndices

  /** How many digits of the block already sit in row y. */
  function Count(block: seq<Placement>, y: int): nat {
    multiset(YsOf(block))[y]
  }

  /** availableYs: one entry per free slot, each row repeated as often as it still has room. */
  function AvailableYs(block: seq<Placement>): (r: seq<int>)
    ensures forall y :: y in r ==> 0 <= y < 3
  {
    var r := Difference(Slots, YsOf(block));
    assert forall y :: y in r ==> 0 <= y < 3 by {
      DifferenceMultiset(Slots, YsOf(block));
      forall y | y in r ensures 0 <= y < 3 {
        assert multiset(r)[y] > 0;
        assert y in multiset(Slots);
      }
    }
    r
  }

  lemma RowIndexCount(y: int)
    ensures multiset(RowIndices)[y] == if 0 <= y < 3 then 1 else 0
  {
    assert multiset(RowIndices) == multiset{0} + multiset{1} + multiset{2};
  }

  lemma SlotCounts(y: int)
    ensures multiset(Slots)[y] == if 0 <= y < 3 then 3 else 0
  {
    RowIndexCount(y);
  }

  /** A row is available exactly when it is one of 0..2 and holds fewer than three digits. */
  lemma AvailableYsMembers(block: seq<Placement>, y: int)
    ensures y in AvailableYs(block) <==> 0 <= y < 3 && Count(block, y) < 3
  {
    DifferenceMultiset(Slots, YsOf(block));
    SlotCounts(y);
    assert y in AvailableYs(block) <==> multiset(AvailableYs(block))[y] > 0;
  }

  /** get1stBlockY: a random available row of the first block. */
  function Get1stBlockY(block: seq<Placement>, draw: nat): (y: int)
    requires |AvailableYs(block)| > 0
    ensures y in AvailableYs(block)
  {
    RandomElement(AvailableYs(block), draw)
  }

  /** get2ndBlockPossibleYs: the distinct available rows of the second block other than y1. */
  function Get2ndBlockPossibleYs(block: seq<Placement>, y1: int): (r: seq<int>)
    ensures NoDuplicates(r)
    ensures forall y :: y in r <==> y != y1 && 0 <= y < 3 && Count(block, y) < 3
  {
    var available := Nub(AvailableYs(block));
    MissingKeepsDistinct(available, [y1]);
    forall y ensures y in AvailableYs(block) <==> 0 <= y < 3 && Count(block, y) < 3 {
      AvailableYsMembers(block, y);
    }
    Missing(available, [y1])
  }

  /**
   * The rows the third block must avoid: y1, and also the second block's only possible row when
   * just one is left, so that the second block is never cornered.
   */
  function OccupiedYs(y1: int, possibleY2s: seq<int>): seq<int> {
    if |possibleY2s| == 1 then [possibleY2s[0], y1] else [y1]
  }

  /** The rows get3rdBlockY draws from. */
  function PossibleY3s(block: seq<Placement>, y1: int, possibleY2s: seq<int>): seq<int> {
    Missing(AvailableYs(block), OccupiedYs(y1, possibleY2s))
  }

  /** get3rdBlockY: a random available row of the third block outside the occupied ones. */
  function Get3rdBlockY(block: seq<Placement>, y1: int, possibleY2s: seq<int>, draw: nat): (y: int)
    requires |PossibleY3s(block, y1, possibleY2s)| > 0
    ensures y != y1 && y in AvailableYs(block) && y !in OccupiedYs(y1, possibleY2s)
  {
    RandomElement(PossibleY3s(block, y1, possibleY2s), draw)
  }

  /** The rows get2ndBlockY chooses from. */
  function PossibleY2s(block: seq<Placement>, y1: int, y3: int): seq<int> {
    Difference(Nub(AvailableYs(block)), [y1, y3])
  }

  /** get2ndBlockY: the first distinct available row of the second block that is neither y1 nor y3. */
  function Get2ndBlockY(block: seq<Placement>, y1: int, y3: int): (y: int)
    requires |PossibleY2s(block, y1, y3)| > 0
    ensures y != y1 && y != y3 && 0 <= y < 3 && Count(block, y) < 3
  {
    var r := PossibleY2s(block, y1, y3);
    DifferenceMembers(Nub(AvailableYs(block)), [y1, y3], r[0]);
    AvailableYsMembers(block, r[0]);
    r[0]
  }

  /** Three rows that are a rearrangement of 0, 1, 2. */
  predicate DistinctRows(y1: int, y2: int, y3: int) {
    0 <= y1 < 3 && 0 <= y2 < 3 && 0 <= y3 < 3 && y1 != y2 && y1 != y3 && y2 != y3
  }

  /**
   * The counts of the three stacks after t digits: every row of every block holds at most three
   * digits, and the counts add up to t along each block and along each row index.
   */
  predicate Balanced(first: seq<Placement>, second: seq<Placement>, third: seq<Placement>, t: nat) {
    Count(first, 0) <= 3 && Count(first, 1) <= 3 && Count(first, 2) <= 3 &&
    Count(second, 0) <= 3 && Count(second, 1) <= 3 && Count(second, 2) <= 3 &&
    Count(third, 0) <= 3 && Count(third, 1) <= 3 && Count(third, 2) <= 3 &&
    Count(first, 0) + Count(second, 0) + Count(third, 0) == t &&
    Count(first, 1) + Count(second, 1) + Count(third, 1) == t &&
    Count(first, 2) + Count(second, 2) + Count(third, 2) == t &&
    Count(first, 0) + Count(first, 1) + Count(first, 2) == t &&
    Count(second, 0) + Count(second, 1) + Count(second, 2) == t &&
    Count(third, 0) + Count(third, 1) + Count(third, 2) == t
  }

  /**
   * The state of the three stacks after t digits: digit k + 1 at position k of every block, its
   * three rows distinct, and the counts balanced.
   */
  predicate Partial(first: seq<Placement>, second: seq<Placement>, third: seq<Placement>, t: nat) {
    t <= 9 && |first| == t && |second| == t && |third| == t &&
    (forall k :: 0 <= k < t ==> first[k].num == k + 1 && second[k].num == k + 1 && third[k].num == k + 1) &&
    (forall k :: 0 <= k < t ==> DistinctRows(first[k].y, second[k].y, third[k].y)) &&
    Balanced(first, second, third, t)
  }

  /**
   * The counting argument behind the draws: with fewer than nine digits placed and y1 open in
   * the first block, the second block has another open row, and the third block has an open
   * row that avoids both y1 and any row the second block is down to.
   */
  lemma CountsLeaveRoom(first: seq<Placement>, second: seq<Placement>, third: seq<Placement>, t: nat, y1: int)
    requires Balanced(first, second, third, t) && t < 9
    requires 0 <= y1 < 3 && Count(first, y1) < 3
    ensures exists y :: 0 <= y < 3 && y != y1 && Count(second, y) < 3
    ensures exists y :: 0 <= y < 3 && y != y1 && Count(third, y) < 3
    ensures forall p, q :: DistinctRows(y1, p, q) && Count(second, q) >= 3 ==> Count(third, q) < 3
  {
    var f, s, h := RowCounts(first), RowCounts(second), RowCounts(third);
    var y2, y3 := RoomInCounts(f, s, h, t, y1);
  }

  /** The counts of one block, by row index. */
  function RowCounts(block: seq<Placement>): (c: seq<int>)
    ensures |c| == 3 && forall y :: 0 <= y < 3 ==> c[y] == Count(block, y)
  {
    [Count(block, 0), Count(block, 1), Count(block, 2)]
  }

  /**
   * The counting argument on plain numbers, with f, s and h the row counts of the three
   * blocks: when the first block still has room in row y1, the other two blocks have room
   * outside y1, and they never both fill the same row outside y1.
   */
  lemma RoomInCounts(f: seq<int>, s: seq<int>, h: seq<int>, t: int, y1: int) returns (y2: int, y3: int)
    requires |f| == 3 && |s| == 3 && |h| == 3 && t < 9 && 0 <= y1 < 3 && f[y1] < 3
    requires forall y :: 0 <= y < 3 ==> 0 <= f[y] <= 3 && 0 <= s[y] <= 3 && 0 <= h[y] <= 3 && f[y] + s[y] + h[y] == t
    requires f[0] + f[1] + f[2] == t && s[0] + s[1] + s[2] == t && h[0] + h[1] + h[2] == t
    ensures 0 <= y2 < 3 && y2 != y1 && s[y2] < 3
    ensures 0 <= y3 < 3 && y3 != y1 && h[y3] < 3
    ensures forall q :: 0 <= q < 3 && q != y1 && s[q] >= 3 ==> h[q] < 3
  {
    var u, w := (y1 + 1) % 3, (y1 + 2) % 3;
    y2 := if s[u] < 3 then u else w;
    y3 := if h[u] < 3 then u else w;
  }

  /** With fewer than nine digits placed, the first block has an open row. */
  lemma FirstBlockHasRoom(first: seq<Placement>, second: seq<Placement>, third: seq<Placement>)
    requires Partial(first, second, third, |first|) && |first| < 9
    ensures |AvailableYs(first)| > 0
  {
    var y := if Count(first, 0) < 3 then 0 else if Count(first, 1) < 3 then 1 else 2;
    AvailableYsMembers(first, y);
  }

  /** After y1, get2ndBlockPossibleYs is non-empty and get3rdBlockY has a row to draw. */
  lemma ThirdBlockHasRoom(first: seq<Placement>, second: seq<Placement>, third: seq<Placement>, t: nat, y1: int)
    requires Balanced(first, second, third, t) && t < 9
    requires 0 <= y1 < 3 && Count(first, y1) < 3
    ensures |Get2ndBlockPossibleYs(second, y1)| > 0
    ensures |PossibleY3s(third, y1, Get2ndBlockPossibleYs(second, y1))| > 0
  {
    CountsLeaveRoom(first, second, third, t, y1);
    RoomLeftForThird(second, third, y1);
  }

  lemma RoomLeftForThird(second: seq<Placement>, third: seq<Placement>, y1: int)
    requires 0 <= y1 < 3
    requires exists y :: 0 <= y < 3 && y != y1 && Count(second, y) < 3
    requires exists y :: 0 <= y < 3 && y != y1 && Count(third, y) < 3
    requires forall p, q :: DistinctRows(y1, p, q) && Count(second, q) >= 3 ==> Count(third, q) < 3
    ensures |Get2ndBlockPossibleYs(second, y1)| > 0
    ensures |PossibleY3s(third, y1, Get2ndBlockPossibleYs(second, y1))| > 0
  {
    var possibleY2s := Get2ndBlockPossibleYs(second, y1);
    var z :| 0 <= z < 3 && z != y1 && Count(second, z) < 3;
    assert z in possibleY2s;
    var y3: int;
    if |possibleY2s| == 1 {
      var p := possibleY2s[0];
      assert p in possibleY2s;
      y3 := 3 - y1 - p;
      assert DistinctRows(y1, p, y3);
    } else {
      y3 :| 0 <= y3 < 3 && y3 != y1 && Count(third, y3) < 3;
    }
    OpenRowIsPossible(third, y1, possibleY2s, y3);
  }

  lemma OpenRowIsPossible(third: seq<Placement>, y1: int, possibleY2s: seq<int>, y3: int)
    requires 0 <= y3 < 3 && Count(third, y3) < 3 && y3 != y1
    requires |possibleY2s| == 1 ==> y3 != possibleY2s[0]
    ensures y3 in PossibleY3s(third, y1, possibleY2s)
  {
    AvailableYsMembers(third, y3);
  }

  /** After y1 and y3, get2ndBlockY has a row left: the one that is neither. */
  lemma SecondBlockHasRoom(second: seq<Placement>, y1: int, y3: int)
    requires 0 <= y1 < 3 && 0 <= y3 < 3 && y1 != y3
    requires |Get2ndBlockPossibleYs(second, y1)| > 0
    requires y3 !in OccupiedYs(y1, Get2ndBlockPossibleYs(second, y1))
    ensures |PossibleY2s(second, y1, y3)| > 0
  {
    var possibleY2s := Get2ndBlockPossibleYs(second, y1);
    var y2 := 3 - y1 - y3;
    if |possibleY2s| == 1 {
      var p := possibleY2s[0];
      assert p in possibleY2s;
      assert p != y1 && 0 <= p < 3;
      assert OccupiedYs(y1, possibleY2s) == [p, y1];
      assert p != y3;
      assert p == y2;
    } else {
      var a, b := possibleY2s[0], possibleY2s[1];
      assert a in possibleY2s && b in possibleY2s;
      assert a == y2 || b == y2;
    }
    assert y2 in possibleY2s;
    AvailableYsMembers(second, y2);
    DifferenceMembers(Nub(AvailableYs(second)), [y1, y3], y2);
  }

  /** One iteration of the forEach: the rows chosen for the next digit, given the two draws. */
  function NextRows(first: seq<Placement>, second: seq<Placement>, third: seq<Placement>, draw1: nat, draw3: nat): (r: (int, int, int))
    requires Partial(first, second, third, |first|) && |first| < 9
    ensures DistinctRows(r.0, r.1, r.2)
    ensures Count(first, r.0) < 3 && Count(second, r.1) < 3 && Count(third, r.2) < 3
  {
    FirstBlockHasRoom(first, second, third);
    var y1 := Get1stBlockY(first, draw1);
    AvailableYsMembers(first, y1);
    ThirdBlockHasRoom(first, second, third, |first|, y1);
    var y3 := Get3rdBlockY(third, y1, Get2ndBlockPossibleYs(second, y1), draw3);
    AvailableYsMembers(third, y3);
    SecondBlockHasRoom(second, y1, y3);
    var y2 := Get2ndBlockY(second, y1, y3);
    (y1, y2, y3)
  }

  lemma CountPush(block: seq<Placement>, p: Placement, y: int)
    ensures Count(block + [p], y) == Count(block, y) + (if p.y == y then 1 else 0)
  {
    assert YsOf(block + [p]) == YsOf(block) + [p.y];
  }

  lemma CountPushRows(block: seq<Placement>, p: Placement)
    ensures Count(block + [p], 0) == Count(block, 0) + (if p.y == 0 then 1 else 0)
    ensures Count(block + [p], 1) == Count(block, 1) + (if p.y == 1 then 1 else 0)
    ensures Count(block + [p], 2) == Count(block, 2) + (if p.y == 2 then 1 else 0)
  {
    CountPush(block, p, 0);
    CountPush(block, p, 1);
    CountPush(block, p, 2);
  }

  /** Pushing rows that are open and pairwise distinct keeps the stacks balanced. */
  lemma PushKeepsPartial(first: seq<Placement>, second: seq<Placement>, third: seq<Placement>, t: nat, y1: int, y2: int, y3: int)
    requires Partial(first, second, third, t) && t < 9
    requires DistinctRows(y1, y2, y3)
    requires Count(first, y1) < 3 && Count(second, y2) < 3 && Count(third, y3) < 3
    ensures Partial(first + [Placement(t + 1, y1)], second + [Placement(t + 1, y2)], third + [Placement(t + 1, y3)], t + 1)
  {
    PushKeepsBalanced(first, second, third, t, Placement(t + 1, y1), Placement(t + 1, y2), Placement(t + 1, y3));
  }

  lemma PushKeepsBalanced(first: seq<Placement>, second: seq<Placement>, third: seq<Placement>, t: nat, p1: Placement, p2: Placement, p3: Placement)
    requires Balanced(first, second, third, t)
    requires DistinctRows(p1.y, p2.y, p3.y)
    requires Count(first, p1.y) < 3 && Count(second, p2.y) < 3 && Count(third, p3.y) < 3
    ensures Balanced(first + [p1], second + [p2], third + [p3], t + 1)
  {
    CountPushRows(first, p1);
    CountPushRows(second, p2);
    CountPushRows(third, p3);
  }

  /**
   * What one band promises: three blocks, each listing the digits 1..9 in order, each block row
   * receiving exactly three digits, and every digit given three different rows in the three blocks.
   */
  predicate Band(band: seq<seq<Placement>>) {
    |band| == 3 &&
    (forall b :: 0 <= b < 3 ==> |band[b]| == 9) &&
    (forall b, k :: 0 <= b < 3 && 0 <= k < 9 ==> band[b][k].num == k + 1) &&
    (forall k :: 0 <= k < 9 ==> DistinctRows(band[0][k].y, band[1][k].y, band[2][k].y)) &&
    (forall b, y :: 0 <= b < 3 && 0 <= y < 3 ==> Count(band[b], y) == 3)
  }

  lemma FullStacksFormBand(first: seq<Placement>, second: seq<Placement>, third: seq<Placement>)
    requires Partial(first, second, third, 9)
    ensures Band([first, second, third])
  {
    var band: seq<seq<Placement>> := [first, second, third];
    forall b, k | 0 <= b < 3 && 0 <= k < 9 ensures band[b][k].num == k + 1 {
    }
    forall b, y | 0 <= b < 3 && 0 <= y < 3 ensures Count(band[b], y) == 3 {
    }
  }

  /**
   * The reduce body of getPartialBlockRows for one band: for num = 1..9, draw y1, then y3, then
   * take y2, and push `{ num, y }` onto the three stacks. Two draws are used per digit.
   */
  method FillBand(rand: RandomStream, draw: nat) returns (band: seq<seq<Placement>>, next: nat)
    ensures Band(band)
    ensures next == draw + 18
  {
    var first: seq<Placement>, second: seq<Placement>, third: seq<Placement> := [], [], [];
    next := draw;
    for num := 1 to 10
      invariant Partial(first, second, third, num - 1)
      invariant next == draw + 2 * (num - 1)
    {
      var rows := NextRows(first, second, third, rand(next), rand(next + 1));
      PushKeepsPartial(first, second, third, num - 1, rows.0, rows.1, rows.2);
      first := first + [Placement(num, rows.0)];
      second := second + [Placement(num, rows.1)];
      third := third + [Placement(num, rows.2)];
      next := next + 2;
    }
    FullStacksFormBand(first, second, third);
    band := [first, second, third];
  }

  /** getPartialBlockRows: three bands, top to bottom, drawn from one random stream. */
  method PartialBlockRows(rand: RandomStream) returns (bands: seq<seq<seq<Placement>>>)
    ensures |bands| == 3 && forall b :: 0 <= b < 3 ==> Band(bands[b])
  {
    bands := [];
    var draw := 0;
    while |bands| < 3
      invariant |bands| <= 3 && forall b :: 0 <= b < |bands| ==> Band(bands[b])
    {
      var band;
      band, draw := FillBand(rand, draw);
      bands := bands + [band];
    }
  }
}
