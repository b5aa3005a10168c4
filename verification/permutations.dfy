/** `getPermutations` of src/sudoku.js: the six orderings of one three-digit block row. */
module Permutations {
  import opened Collections

  /** swap([a, b, c], i): exchanges the first two entries when i is 0, the last two otherwise. */
  function Swap(t: seq<int>, i: nat): (r: seq<int>)
    requires |t| == 3
    ensures |r| == 3
  {
    if i % 2 == 0 then [t[1], t[0], t[2]] else [t[0], t[2], t[1]]
  }

  /** The reduce over seq(n) from position i: each step swaps the pair chosen by i % 2 in the previous ordering. */
  function SwapChain(last: seq<int>, i: nat, n: nat): (r: seq<seq<int>>)
    requires |last| == 3
    ensures |r| == if i < n then n - i else 0
    ensures forall k :: 0 <= k < |r| ==> |r[k]| == 3
    decreases n - i
  {
    if i >= n then []
    else
      var p := Swap(last, i % 2);
      [p] + SwapChain(p, i + 1, n)
  }

  /** getPermutations(arr): the input followed by five alternating swaps. */
  function GetPermutations(t: seq<int>): (r: seq<seq<int>>)
    requires |t| == 3
    ensures |r| == 6 && r[0] == t
    ensures forall k :: 0 <= k < 6 ==> |r[k]| == 3
  {
    [t] + SwapChain(t, 0, 5)
  }

  /** The six orderings, spelled out: abc, bac, bca, cba, cab, acb. */
  lemma PermutationsListed(t: seq<int>)
    requires |t| == 3
    ensures GetPermutations(t) ==
      [t, [t[1], t[0], t[2]], [t[1], t[2], t[0]], [t[2], t[1], t[0]], [t[2], t[0], t[1]], [t[0], t[2], t[1]]]
  {
    var a, b, c := t[0], t[1], t[2];
    assert SwapChain([a, c, b], 5, 5) == [];
    assert SwapChain([c, a, b], 4, 5) == [[a, c, b]];
    assert SwapChain([c, b, a], 3, 5) == [[c, a, b], [a, c, b]];
    assert SwapChain([b, c, a], 2, 5) == [[c, b, a], [c, a, b], [a, c, b]];
    assert SwapChain([b, a, c], 1, 5) == [[b, c, a], [c, b, a], [c, a, b], [a, c, b]];
    assert SwapChain(t, 0, 5) == [[b, a, c], [b, c, a], [c, b, a], [c, a, b], [a, c, b]];
  }

  /** Each of the six is a reordering of the input: the same digits with the same multiplicities. */
  lemma PermutationsArePermutations(t: seq<int>, k: nat)
    requires |t| == 3 && k < 6
    ensures multiset(GetPermutations(t)[k]) == multiset(t)
  {
    if k > 0 {
      SwapChainKeepsDigits(t, 0, 5, k - 1);
    }
  }

  lemma SwapKeepsDigits(t: seq<int>, i: nat)
    requires |t| == 3
    ensures multiset(Swap(t, i)) == multiset(t)
  {
    var a, b, c := t[0], t[1], t[2];
    assert t == [a, b, c];
    assert multiset(t) == multiset{a, b, c};
    if i % 2 == 0 {
      assert multiset(Swap(t, i)) == multiset{b, a, c};
    } else {
      assert multiset(Swap(t, i)) == multiset{a, c, b};
    }
  }

  lemma {:induction false} SwapChainKeepsDigits(last: seq<int>, i: nat, n: nat, k: nat)
    requires |last| == 3 && k < |SwapChain(last, i, n)|
    ensures multiset(SwapChain(last, i, n)[k]) == multiset(last)
    decreases n - i
  {
    var p := Swap(last, i % 2);
    SwapKeepsDigits(last, i % 2);
    if k > 0 {
      SwapChainKeepsDigits(p, i + 1, n, k - 1);
    }
  }

  predicate Distinct3(t: seq<int>)
    requires |t| == 3
  {
    t[0] != t[1] && t[0] != t[2] && t[1] != t[2]
  }

  /** For three distinct digits the six orderings are pairwise different and each keeps the digits distinct. */
  lemma PermutationsDistinct(t: seq<int>, k: nat, l: nat)
    requires |t| == 3 && Distinct3(t)
    requires k < l < 6
    ensures GetPermutations(t)[k] != GetPermutations(t)[l]
    ensures Distinct3(GetPermutations(t)[k])
  {
    PermutationsListed(t);
    var p, q := GetPermutations(t)[k], GetPermutations(t)[l];
    assert p[0] != q[0] || p[1] != q[1];
  }

  /** A reordering of three distinct digits holds each of them once. */
  lemma ReorderingDigits(t: seq<int>, p: seq<int>)
    requires |t| == 3 && Distinct3(t)
    requires |p| == 3 && multiset(p) == multiset(t)
    ensures Distinct3(p)
    ensures forall i :: 0 <= i < 3 ==> p[i] == t[0] || p[i] == t[1] || p[i] == t[2]
  {
    assert NoDuplicates(t);
    CountsOneIffDistinct(t);
    CountsOneIffDistinct(p);
    assert NoDuplicates(p);
    forall i | 0 <= i < 3 ensures p[i] == t[0] || p[i] == t[1] || p[i] == t[2] {
      assert p[i] in multiset(t);
      assert t == [t[0], t[1], t[2]];
    }
  }

  /** Three distinct values drawn from three distinct digits form one of the six orderings. */
  lemma ReorderingListed(t: seq<int>, p: seq<int>)
    requires |t| == 3 && Distinct3(t) && |p| == 3 && Distinct3(p)
    requires forall i :: 0 <= i < 3 ==> p[i] == t[0] || p[i] == t[1] || p[i] == t[2]
    ensures p in [t, [t[1], t[0], t[2]], [t[1], t[2], t[0]], [t[2], t[1], t[0]], [t[2], t[0], t[1]], [t[0], t[2], t[1]]]
  {
    var a, b, c := t[0], t[1], t[2];
    assert p == [p[0], p[1], p[2]] && t == [a, b, c];
    if p[0] == a {
      if p[1] == b { assert p == t; } else { assert p == [a, c, b]; }
    } else if p[0] == b {
      if p[1] == a { assert p == [b, a, c]; } else { assert p == [b, c, a]; }
    } else {
      if p[1] == a { assert p == [c, a, b]; } else { assert p == [c, b, a]; }
    }
  }

  /** Every reordering of three distinct digits occurs among the six. */
  lemma PermutationsComplete(t: seq<int>, p: seq<int>)
    requires |t| == 3 && Distinct3(t)
    requires |p| == 3 && multiset(p) == multiset(t)
    ensures p in GetPermutations(t)
  {
    PermutationsListed(t);
    ReorderingDigits(t, p);
    ReorderingListed(t, p);
  }

  /** Membership form used by the generator: an ordering holds exactly the three input digits, each once. */
  lemma PermutationMembers(t: seq<int>, p: seq<int>)
    requires |t| == 3 && Distinct3(t)
    requires p in GetPermutations(t)
    ensures |p| == 3 && Distinct3(p)
    ensures forall x :: x in p <==> x in t
  {
    PermutationsListed(t);
  }
}
