/**
 * The in-place list shuffle of Helpers.Shuffle and Helpers.Swap.
 *
 * The random source is modelled by the sequence of values it hands out: the
 * loop makes one call to rnd.Next per pass, and pass k (k = 0, 1, ...) works
 * on index i = n - 1 - k with the k-th value drawn. A list is an array, so the
 * swaps happen in place and the object itself is what the method returns.
 */
module Shuffling {

  /** Number of passes of the loop `for (i = n - 1; i > 0; i--)`. */
  function Passes(n: nat): nat {
    if n <= 1 then 0 else n - 1
  }

  /** Draws that keep every swap inside a list of length n. */
  predicate InBoundsDraws(draws: seq<nat>, n: nat) {
    |draws| == Passes(n) && forall k :: 0 <= k < |draws| ==> draws[k] < n
  }

  /** The draws the code asks for: every pass calls rnd.Next(n - 1), so each draw is in [0, n - 2]. */
  predicate CodeDraws(draws: seq<nat>, n: nat) {
    |draws| == Passes(n) && forall k :: 0 <= k < |draws| ==> draws[k] < n - 1
  }

  /** The draws of a Fisher-Yates shuffle: the pass on index i draws from [0, i]. */
  predicate FisherYatesDraws(draws: seq<nat>, n: nat) {
    |draws| == Passes(n) && forall k :: 0 <= k < |draws| ==> draws[k] <= n - 1 - k
  }

  /** Pairwise different elements, so that a position can be told by its element. */
  predicate Distinct<T(==)>(s: seq<T>) {
    forall i, j :: 0 <= i < j < |s| ==> s[i] != s[j]
  }

  /** The list after exchanging positions i and j: a rearrangement of the same elements. */
  function SwapAt<T>(s: seq<T>, i: nat, j: nat): (r: seq<T>)
    requires i < |s| && j < |s|
    ensures |r| == |s| && multiset(r) == multiset(s)
  {
    var r := seq(|s|, k requires 0 <= k < |s| => if k == i then s[j] else if k == j then s[i] else s[k]);
    assert r == s[i := s[j]][j := s[i]];
    r
  }

  /** A swap exchanges the two positions and leaves every other one as it was. */
  lemma SwapAtElements<T>(s: seq<T>, i: nat, j: nat)
    requires i < |s| && j < |s|
    ensures SwapAt(s, i, j)[i] == s[j] && SwapAt(s, i, j)[j] == s[i]
    ensures forall k :: 0 <= k < |s| && k != i && k != j ==> SwapAt(s, i, j)[k] == s[k]
  {
  }

  /** The list after the first k passes of the loop; pass k exchanges index n - k with draws[k - 1]. */
  function AfterPasses<T>(s: seq<T>, draws: seq<nat>, k: nat): (r: seq<T>)
    requires InBoundsDraws(draws, |s|) && k <= |draws|
    ensures |r| == |s| && multiset(r) == multiset(s)
    decreases k
  {
    if k == 0 then s else SwapAt(AfterPasses(s, draws, k - 1), |s| - k, draws[k - 1])
  }

  /** The list once the loop has run all its passes. */
  function Shuffled<T>(s: seq<T>, draws: seq<nat>): (r: seq<T>)
    requires InBoundsDraws(draws, |s|)
    ensures |r| == |s| && multiset(r) == multiset(s)
  {
    AfterPasses(s, draws, Passes(|s|))
  }

  lemma CodeDrawsInBounds(draws: seq<nat>, n: nat)
    requires CodeDraws(draws, n)
    ensures InBoundsDraws(draws, n)
  {
  }

  lemma FisherYatesDrawsInBounds(draws: seq<nat>, n: nat)
    requires FisherYatesDraws(draws, n)
    ensures InBoundsDraws(draws, n)
  {
  }

  /** Helpers.Swap: exchanges two elements of the list in place; i == j leaves the list as it was. */
  method Swap<T>(a: array<T>, i: nat, j: nat)
    requires i < a.Length && j < a.Length
    modifies a
    ensures a[..] == SwapAt(old(a[..]), i, j)
    ensures i == j ==> a[..] == old(a[..])
  {
    var temp := a[i];
    a[i] := a[j];
    a[j] := temp;
  }

  /** Helpers.Shuffle as written: every pass swaps index i with a draw of rnd.Next(n - 1). */
  method Shuffle<T>(a: array<T>, draws: seq<nat>) returns (r: array<T>)
    requires CodeDraws(draws, a.Length)
    modifies a
    ensures r == a
    ensures a[..] == Shuffled(old(a[..]), draws)
    ensures multiset(a[..]) == multiset(old(a[..]))
  {
    CodeDrawsInBounds(draws, a.Length);
    ghost var s0 := a[..];
    var n := a.Length;
    var i := n - 1;
    while i > 0
      invariant -1 <= i < n && (n > 0 ==> 0 <= i)
      invariant a[..] == AfterPasses(s0, draws, n - 1 - i)
    {
      // i is in [1, n - 1] and the draw in [0, n - 2]: both indices are in bounds
      Swap(a, i, draws[n - 1 - i]);
      i := i - 1;
    }
    assert n - 1 - i == Passes(n);
    r := a;
  }

  /** The shuffle with the draw bound of Fisher and Yates: the pass on index i draws from [0, i]. */
  method FisherYatesShuffle<T>(a: array<T>, draws: seq<nat>) returns (r: array<T>)
    requires FisherYatesDraws(draws, a.Length)
    modifies a
    ensures r == a
    ensures a[..] == Shuffled(old(a[..]), draws)
    ensures multiset(a[..]) == multiset(old(a[..]))
  {
    FisherYatesDrawsInBounds(draws, a.Length);
    ghost var s0 := a[..];
    var n := a.Length;
    var i := n - 1;
    while i > 0
      invariant -1 <= i < n && (n > 0 ==> 0 <= i)
      invariant a[..] == AfterPasses(s0, draws, n - 1 - i)
    {
      Swap(a, i, draws[n - 1 - i]);
      i := i - 1;
    }
    assert n - 1 - i == Passes(n);
    r := a;
  }

  /** Lists of length 0 or 1 are never touched; a list of length 2 is always reversed by the code. */
  lemma ShortLists<T>(s: seq<T>, draws: seq<nat>)
    requires InBoundsDraws(draws, |s|)
    ensures |s| <= 1 ==> Shuffled(s, draws) == s
    ensures |s| == 2 && CodeDraws(draws, 2) ==> Shuffled(s, draws) == [s[1], s[0]]
  {
  }

  /* ---------------------------------------------------------------------
   * The draw bound as written. Every pass draws from [0, n - 2], so once the
   * first pass has moved an element from [0, n - 2] into the last position,
   * no later pass touches that position again.
   * --------------------------------------------------------------------- */

  lemma {:induction false} LastPositionSettled<T>(s: seq<T>, draws: seq<nat>, k: nat)
    requires CodeDraws(draws, |s|) && |s| >= 2 && 1 <= k <= Passes(|s|)
    ensures InBoundsDraws(draws, |s|)
    ensures AfterPasses(s, draws, k)[|s| - 1] == s[draws[0]]
    decreases k
  {
    CodeDrawsInBounds(draws, |s|);
    if k == 1 {
      SwapAtElements(s, |s| - 1, draws[0]);
    } else {
      LastPositionSettled(s, draws, k - 1);
      var prev := AfterPasses(s, draws, k - 1);
      SwapAtElements(prev, |s| - k, draws[k - 1]);
    }
  }

  /** As written, an element that starts last never ends last: the input order itself is unreachable. */
  lemma ShuffleCannotKeepLast<T>(s: seq<T>, draws: seq<nat>)
    requires CodeDraws(draws, |s|) && |s| >= 2 && Distinct(s)
    ensures InBoundsDraws(draws, |s|)
    ensures Shuffled(s, draws)[|s| - 1] != s[|s| - 1]
    ensures Shuffled(s, draws) != s
  {
    LastPositionSettled(s, draws, Passes(|s|));
  }

  /* ---------------------------------------------------------------------
   * The draw bound of Fisher and Yates. The first pass picks the element of
   * the last position; the remaining passes shuffle the rest of the list in
   * the same way. Each order of the elements comes from exactly one sequence
   * of draws, which is what makes uniform draws give a uniform shuffle.
   * --------------------------------------------------------------------- */

  lemma FisherYatesDrawsTail(draws: seq<nat>, n: nat)
    requires FisherYatesDraws(draws, n) && n >= 2
    ensures FisherYatesDraws(draws[1..], n - 1)
  {
  }

  lemma SwapAtAppend<T>(q: seq<T>, x: T, i: nat, j: nat)
    requires i < |q| && j < |q|
    ensures SwapAt(q + [x], i, j) == SwapAt(q, i, j) + [x]
  {
    assert SwapAt(q + [x], i, j)[..|q|] == SwapAt(q, i, j);
  }

  /** After k + 1 passes: k passes over the first n - 1 elements, behind the element the first pass chose. */
  lemma {:induction false} FisherYatesPeel<T>(s: seq<T>, draws: seq<nat>, k: nat)
    requires FisherYatesDraws(draws, |s|) && |s| >= 2 && k < Passes(|s|)
    ensures InBoundsDraws(draws, |s|) && InBoundsDraws(draws[1..], |s| - 1)
    ensures AfterPasses(s, draws, k + 1)
         == AfterPasses(SwapAt(s, |s| - 1, draws[0])[..|s| - 1], draws[1..], k) + [s[draws[0]]]
    decreases k
  {
    FisherYatesDrawsInBounds(draws, |s|);
    FisherYatesDrawsTail(draws, |s|);
    FisherYatesDrawsInBounds(draws[1..], |s| - 1);
    var n := |s|;
    var first := SwapAt(s, n - 1, draws[0]);
    var rest := first[..n - 1];
    SwapAtElements(s, n - 1, draws[0]);
    if k == 0 {
      assert first == rest + [s[draws[0]]];
    } else {
      FisherYatesPeel(s, draws, k - 1);
      var q := AfterPasses(rest, draws[1..], k - 1);
      SwapAtAppend(q, s[draws[0]], n - 1 - k, draws[k]);
      assert AfterPasses(rest, draws[1..], k) == SwapAt(q, |rest| - k, draws[1..][k - 1]);
    }
  }

  lemma FisherYatesLastPass<T>(s: seq<T>, draws: seq<nat>)
    requires FisherYatesDraws(draws, |s|) && |s| >= 2
    ensures FisherYatesDraws(draws[1..], |s| - 1) && InBoundsDraws(draws, |s|)
    ensures Shuffled(s, draws)
         == Shuffled(SwapAt(s, |s| - 1, draws[0])[..|s| - 1], draws[1..]) + [s[draws[0]]]
  {
    FisherYatesDrawsTail(draws, |s|);
    FisherYatesPeel(s, draws, |s| - 2);
  }

  /** Every ordering of the elements is the outcome of some Fisher-Yates draws. */
  lemma {:induction false} FisherYatesReachesEveryOrder<T>(s: seq<T>, t: seq<T>)
    requires multiset(t) == multiset(s)
    ensures exists draws :: FisherYatesDraws(draws, |s|) && Shuffled(s, draws) == t
    decreases |s|
  {
    var n := |s|;
    if n <= 1 {
      SameMultisetShort(s, t);
      assert FisherYatesDraws([], n) && Shuffled(s, []) == t;
    } else {
      var j := ChooseLast(s, t);
      var rest := SwapAt(s, n - 1, j)[..n - 1];
      FisherYatesReachesEveryOrder(rest, t[..n - 1]);
      var restDraws :| FisherYatesDraws(restDraws, n - 1) && Shuffled(rest, restDraws) == t[..n - 1];
      FisherYatesExtend(s, t, j, restDraws);
      var draws := [j] + restDraws;
      assert FisherYatesDraws(draws, n) && Shuffled(s, draws) == t;
    }
  }

  lemma SameMultisetShort<T>(s: seq<T>, t: seq<T>)
    requires multiset(t) == multiset(s) && |s| <= 1
    ensures t == s
  {
    assert |t| == |multiset(t)| == |s|;
    if |s| == 1 {
      assert t[0] in multiset(s);
    }
  }

  /** The position of the element that must end last, and what is left to order once it is there. */
  lemma ChooseLast<T>(s: seq<T>, t: seq<T>) returns (j: nat)
    requires multiset(t) == multiset(s) && |s| >= 1
    ensures |t| == |s| && j < |s| && s[j] == t[|t| - 1]
    ensures multiset(SwapAt(s, |s| - 1, j)[..|s| - 1]) == multiset(t[..|t| - 1])
  {
    assert |t| == |multiset(t)| == |s|;
    var x := t[|t| - 1];
    assert x in multiset(s);
    j :| 0 <= j < |s| && s[j] == x;
    SwapAtElements(s, |s| - 1, j);
    SameLastSamePrefix(SwapAt(s, |s| - 1, j), t);
  }

  /** Draws that put the right element last, followed by draws that order the rest, order the whole list. */
  lemma FisherYatesExtend<T>(s: seq<T>, t: seq<T>, j: nat, rest: seq<nat>)
    requires |s| >= 2 && |t| == |s| && j < |s| && s[j] == t[|t| - 1]
    requires FisherYatesDraws(rest, |s| - 1)
    requires Shuffled(SwapAt(s, |s| - 1, j)[..|s| - 1], rest) == t[..|t| - 1]
    ensures FisherYatesDraws([j] + rest, |s|) && Shuffled(s, [j] + rest) == t
  {
    var n := |s|;
    FisherYatesDrawsCons(j, rest, n);
    var draws := [j] + rest;
    FisherYatesLastPass(s, draws);
    assert draws[0] == j && draws[1..] == rest;
    assert t == t[..n - 1] + [t[n - 1]];
  }

  lemma SameLastSamePrefix<T>(s: seq<T>, t: seq<T>)
    requires multiset(s) == multiset(t) && |s| >= 1 && |t| == |s| && s[|s| - 1] == t[|t| - 1]
    ensures multiset(s[..|s| - 1]) == multiset(t[..|t| - 1])
  {
    var x := s[|s| - 1];
    assert s == s[..|s| - 1] + [x];
    assert t == t[..|t| - 1] + [x];
    var ms, mt := multiset(s[..|s| - 1]), multiset(t[..|t| - 1]);
    assert multiset(s) == ms + multiset{x};
    assert multiset(t) == mt + multiset{x};
    forall y
      ensures ms[y] == mt[y]
    {
      assert (ms + multiset{x})[y] == (mt + multiset{x})[y];
    }
  }

  lemma FisherYatesDrawsCons(j: nat, rest: seq<nat>, n: nat)
    requires n >= 2 && j < n && FisherYatesDraws(rest, n - 1)
    ensures FisherYatesDraws([j] + rest, n)
  {
    var draws := [j] + rest;
    forall k | 0 <= k < |draws|
      ensures draws[k] <= n - 1 - k
    {
      if k > 0 {
        assert draws[k] == rest[k - 1];
      }
    }
  }

  lemma DistinctRest<T>(s: seq<T>, j: nat)
    requires Distinct(s) && |s| >= 1 && j < |s|
    ensures Distinct(SwapAt(s, |s| - 1, j)[..|s| - 1])
  {
    var r := SwapAt(s, |s| - 1, j);
    SwapAtElements(s, |s| - 1, j);
    forall a, b | 0 <= a < b < |s| - 1
      ensures r[a] != r[b]
    {
      var sa := if a == j then |s| - 1 else a;
      var sb := if b == j then |s| - 1 else b;
      assert r[a] == s[sa] && r[b] == s[sb] && sa != sb;
    }
  }

  /** Over pairwise different elements, different Fisher-Yates draws give different orders. */
  lemma {:induction false} FisherYatesDrawsDetermined<T>(s: seq<T>, d1: seq<nat>, d2: seq<nat>)
    requires Distinct(s) && FisherYatesDraws(d1, |s|) && FisherYatesDraws(d2, |s|)
    requires Shuffled(s, d1) == Shuffled(s, d2)
    ensures d1 == d2
    decreases |s|
  {
    var n := |s|;
    if n >= 2 {
      FisherYatesLastPass(s, d1);
      FisherYatesLastPass(s, d2);
      var r1 := Shuffled(SwapAt(s, n - 1, d1[0])[..n - 1], d1[1..]);
      var r2 := Shuffled(SwapAt(s, n - 1, d2[0])[..n - 1], d2[1..]);
      assert (r1 + [s[d1[0]]])[n - 1] == (r2 + [s[d2[0]]])[n - 1];
      assert d1[0] == d2[0];
      assert r1 == (r1 + [s[d1[0]]])[..n - 1] == (r2 + [s[d2[0]]])[..n - 1] == r2;
      DistinctRest(s, d1[0]);
      FisherYatesDrawsDetermined(SwapAt(s, n - 1, d1[0])[..n - 1], d1[1..], d2[1..]);
      assert d1 == [d1[0]] + d1[1..] && d2 == [d2[0]] + d2[1..];
    }
  }
}
