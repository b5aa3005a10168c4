/** List helpers of src/sudoku.js: `difference`, `nub`, `findIndex` and `splice`, and a counting fact about distinct lists. */
module Collections {
  import opened Common

  predicate NoDuplicates(s: seq<int>) {
    forall i, j :: 0 <= i < j < |s| ==> s[i] != s[j]
  }

  /** `findIndex(eq(x))` / `indexOf(x)`: the position of the first occurrence of x, if any. */
  function FirstIndex(s: seq<int>, x: int): (r: Option<nat>)
    ensures r.None? <==> x !in s
    ensures r.Some? ==> r.value < |s| && s[r.value] == x && x !in s[..r.value]
  {
    if |s| == 0 then None
    else if s[0] == x then Some(0)
    else match FirstIndex(s[1..], x)
      case None => None
      case Some(i) =>
        assert s[1..][..i] == s[1..i + 1];
        Some(i + 1)
  }

  /**
   * `minuend.splice(i >= 0 ? i : Infinity, 1)` with i the first index of x: removes the first
   * occurrence of x and keeps the rest in order; an absent x leaves the list unchanged.
   */
  function RemoveFirst(s: seq<int>, x: int): (r: seq<int>)
    ensures x !in s ==> r == s
    ensures x in s ==> |r| == |s| - 1 && x !in s[..FirstIndex(s, x).value]
    ensures x in s ==> var i := FirstIndex(s, x).value; r[..i] == s[..i] && r[i..] == s[i + 1..]
  {
    match FirstIndex(s, x)
    case None => s
    case Some(i) =>
      assert (s[..i] + s[i + 1..])[i..] == s[i + 1..];
      s[..i] + s[i + 1..]
  }

  /**
   * r keeps some of the elements of s in their original order: r[k] is s[idx[k]], and the
   * positions idx are strictly increasing.
   */
  ghost predicate KeepsOrder(r: seq<int>, s: seq<int>, idx: seq<int>) {
    |idx| == |r| &&
    (forall k :: 0 <= k < |idx| ==> 0 <= idx[k] < |s| && s[idx[k]] == r[k]) &&
    (forall a, b :: 0 <= a < b < |idx| ==> idx[a] < idx[b])
  }

  /** `splice` of one element keeps every other element, in order. */
  lemma RemoveFirstKeepsOrder(s: seq<int>, x: int) returns (idx: seq<int>)
    ensures KeepsOrder(RemoveFirst(s, x), s, idx)
  {
    var r := RemoveFirst(s, x);
    if x in s {
      var i := FirstIndex(s, x).value;
      idx := SkipOne(s, r, i);
    } else {
      idx := seq(|s|, k requires 0 <= k < |s| => k);
    }
  }

  /** The positions of s with position i left out, for r equal to s without its i-th element. */
  lemma SkipOne(s: seq<int>, r: seq<int>, i: nat) returns (idx: seq<int>)
    requires i < |s| && |r| == |s| - 1 && r[..i] == s[..i] && r[i..] == s[i + 1..]
    ensures KeepsOrder(r, s, idx)
  {
    idx := seq(|s| - 1, k requires 0 <= k < |s| - 1 => if k < i then k else k + 1);
    forall k | 0 <= k < |idx| ensures s[idx[k]] == r[k] {
      if k < i {
        assert r[k] == r[..i][k] == s[..i][k];
      } else {
        assert r[k] == r[i..][k - i] == s[i + 1..][k - i];
      }
    }
  }

  /** Positions through a chain of order-keeping selections compose. */
  lemma ComposeKeepsOrder(r: seq<int>, q: seq<int>, s: seq<int>, inner: seq<int>, outer: seq<int>) returns (idx: seq<int>)
    requires KeepsOrder(r, q, inner) && KeepsOrder(q, s, outer)
    ensures KeepsOrder(r, s, idx)
  {
    idx := seq(|inner|, k requires 0 <= k < |inner| => outer[inner[k]]);
  }

  lemma RemoveFirstMultiset(s: seq<int>, x: int)
    ensures multiset(RemoveFirst(s, x)) == multiset(s) - multiset{x}
  {
    var fi := FirstIndex(s, x);
    if fi.Some? {
      var i := fi.value;
      assert s == s[..i] + [s[i]] + s[i + 1..];
    }
  }

  /**
   * difference(minuend, subtrahend): each element of the subtrahend, in turn, removes its
   * first remaining occurrence from the minuend; elements that are not present are skipped.
   */
  function Difference(m: seq<int>, s: seq<int>): (r: seq<int>)
    ensures |r| >= |m| - |s|
    decreases |s|
  {
    if |s| == 0 then m
    else RemoveFirst(Difference(m, s[..|s| - 1]), s[|s| - 1])
  }

  /** `difference` keeps the minuend's remaining elements in their original order. */
  lemma {:induction false} DifferenceKeepsOrder(m: seq<int>, s: seq<int>) returns (idx: seq<int>)
    ensures KeepsOrder(Difference(m, s), m, idx)
    decreases |s|
  {
    if |s| == 0 {
      idx := seq(|m|, k requires 0 <= k < |m| => k);
    } else {
      var init, last := s[..|s| - 1], s[|s| - 1];
      var outer := DifferenceKeepsOrder(m, init);
      var inner := RemoveFirstKeepsOrder(Difference(m, init), last);
      idx := ComposeKeepsOrder(Difference(m, s), Difference(m, init), m, inner, outer);
    }
  }

  /** A non-empty list is its front followed by its last element. */
  lemma SplitLast(s: seq<int>)
    requires |s| > 0
    ensures s == s[..|s| - 1] + [s[|s| - 1]]
    ensures multiset(s) == multiset(s[..|s| - 1]) + multiset{s[|s| - 1]}
    ensures forall y :: y in s <==> y in s[..|s| - 1] || y == s[|s| - 1]
  {
    assert s == s[..|s| - 1] + [s[|s| - 1]];
  }

  /** `difference` is multiset subtraction: every element of the subtrahend takes away one copy. */
  lemma {:induction false} DifferenceMultiset(m: seq<int>, s: seq<int>)
    ensures multiset(Difference(m, s)) == multiset(m) - multiset(s)
    decreases |s|
  {
    if |s| > 0 {
      var init, last := s[..|s| - 1], s[|s| - 1];
      assert Difference(m, s) == RemoveFirst(Difference(m, init), last);
      DifferenceMultiset(m, init);
      RemoveFirstMultiset(Difference(m, init), last);
      SplitLast(s);
    }
  }

  /** The loop of `difference`: copy the minuend, then splice out one element per subtrahend entry. */
  method DifferenceCopy(minuend: seq<int>, subtrahend: seq<int>) returns (r: seq<int>)
    ensures r == Difference(minuend, subtrahend)
  {
    r := minuend;
    for k := 0 to |subtrahend|
      invariant r == Difference(minuend, subtrahend[..k])
    {
      var x := subtrahend[k];
      DifferenceStep(minuend, subtrahend, k);
      var i := FirstIndex(r, x);
      if i.Some? {
        r := r[..i.value] + r[i.value + 1..];
      }
    }
    assert subtrahend[..|subtrahend|] == subtrahend;
  }

  lemma DifferenceStep(m: seq<int>, s: seq<int>, k: nat)
    requires k < |s|
    ensures Difference(m, s[..k + 1]) == RemoveFirst(Difference(m, s[..k]), s[k])
  {
    assert s[..k + 1][..k] == s[..k];
  }

  /** Splicing one element out of a list without repetitions leaves a list without repetitions. */
  lemma RemoveFirstKeepsDistinct(s: seq<int>, x: int)
    requires NoDuplicates(s)
    ensures NoDuplicates(RemoveFirst(s, x))
  {
    var fi := FirstIndex(s, x);
    if fi.Some? {
      var i := fi.value;
      var r := s[..i] + s[i + 1..];
      forall a, b | 0 <= a < b < |r| ensures r[a] != r[b] {
        assert r[a] == s[if a < i then a else a + 1];
        assert r[b] == s[if b < i then b else b + 1];
      }
    }
  }

  /** On a list without repetitions, splicing out x removes x and nothing else. */
  lemma RemoveFirstMembers(s: seq<int>, x: int, y: int)
    requires NoDuplicates(s)
    ensures y in RemoveFirst(s, x) <==> y in s && y != x
  {
    RemoveFirstMultiset(s, x);
    DistinctCountsAtMostOne(s, x);
    assert y in RemoveFirst(s, x) <==> y in multiset(RemoveFirst(s, x));
  }

  /** `difference` keeps a list without repetitions free of repetitions. */
  lemma {:induction false} DifferenceKeepsDistinct(m: seq<int>, s: seq<int>)
    requires NoDuplicates(m)
    ensures NoDuplicates(Difference(m, s))
    decreases |s|
  {
    if |s| > 0 {
      DifferenceKeepsDistinct(m, s[..|s| - 1]);
      RemoveFirstKeepsDistinct(Difference(m, s[..|s| - 1]), s[|s| - 1]);
    }
  }

  /** On a list without repetitions, `difference` is set difference. */
  lemma {:induction false} DifferenceMembers(m: seq<int>, s: seq<int>, y: int)
    requires NoDuplicates(m)
    ensures y in Difference(m, s) <==> y in m && y !in s
    decreases |s|
  {
    if |s| > 0 {
      var init, last := s[..|s| - 1], s[|s| - 1];
      assert Difference(m, s) == RemoveFirst(Difference(m, init), last);
      DifferenceKeepsDistinct(m, init);
      DifferenceMembers(m, init, y);
      RemoveFirstMembers(Difference(m, init), last, y);
      SplitLast(s);
    }
  }

  /** nub: `Array.from(new Set(arr))`, the first occurrence of every value, in order. */
  function Nub(s: seq<int>): (r: seq<int>)
    ensures NoDuplicates(r)
    ensures forall x :: x in r <==> x in s
    decreases |s|
  {
    if |s| == 0 then []
    else
      var init := Nub(s[..|s| - 1]);
      var last := s[|s| - 1];
      assert s == s[..|s| - 1] + [last];
      if last in init then init else init + [last]
  }

  /** A list without repetitions drawn from a finite set is no longer than the set. */
  lemma {:induction false} DistinctListFitsInSet(s: seq<int>, S: set<int>)
    requires NoDuplicates(s)
    requires forall i :: 0 <= i < |s| ==> s[i] in S
    ensures |s| <= |S|
  {
    if |s| > 0 {
      forall i | 0 <= i < |s[1..]| ensures s[1..][i] in S - {s[0]} {
        assert s[1..][i] == s[i + 1];
      }
      DistinctListFitsInSet(s[1..], S - {s[0]});
    }
  }

  /** Pigeonhole: nine distinct values drawn from 1..9 include every digit. */
  lemma NineDistinctDigitsCover(s: seq<int>, d: int)
    requires |s| == 9 && NoDuplicates(s)
    requires forall i :: 0 <= i < 9 ==> 1 <= s[i] <= 9
    requires 1 <= d <= 9
    ensures d in s
  {
    if d !in s {
      var rest := {1, 2, 3, 4, 5, 6, 7, 8, 9} - {d};
      assert |rest| == 8;
      DistinctListFitsInSet(s, rest);
    }
  }

  /**
   * `arrBase.filter(x => !arrCompare.includes(x))`: the base elements that are not present, in
   * base order (getDifference in the oracle, the occupied-row filter in the generator).
   */
  function Missing(base: seq<int>, present: seq<int>): (r: seq<int>)
    ensures forall x :: x in r <==> x in base && x !in present
  {
    if |base| == 0 then []
    else
      var rest := Missing(base[1..], present);
      assert forall x :: x in base <==> x == base[0] || x in base[1..];
      if base[0] in present then rest else [base[0]] + rest
  }

  lemma {:induction false} MissingKeepsDistinct(base: seq<int>, present: seq<int>)
    requires NoDuplicates(base)
    ensures NoDuplicates(Missing(base, present))
  {
    if |base| > 0 {
      MissingKeepsDistinct(base[1..], present);
      assert base[0] !in base[1..];
    }
  }

  /** A list has no repetitions exactly when, counted as a bag, every value it holds occurs once. */
  lemma CountsOneIffDistinct(s: seq<int>)
    ensures (forall v | v in multiset(s) :: multiset(s)[v] == 1) <==> NoDuplicates(s)
  {
    if NoDuplicates(s) {
      forall v | v in multiset(s) ensures multiset(s)[v] == 1 {
        DistinctCountsAtMostOne(s, v);
      }
    } else {
      var i, j :| 0 <= i < j < |s| && s[i] == s[j];
      assert s == s[..j] + [s[j]] + s[j + 1..];
      assert s[..j][i] == s[i];
      assert multiset(s)[s[i]] >= 2;
    }
  }

  lemma {:induction false} DistinctCountsAtMostOne(s: seq<int>, v: int)
    requires NoDuplicates(s)
    ensures multiset(s)[v] <= 1
  {
    if |s| > 0 {
      var init := s[..|s| - 1];
      assert s == init + [s[|s| - 1]];
      assert s[|s| - 1] !in init;
      DistinctCountsAtMostOne(init, v);
    }
  }
}
