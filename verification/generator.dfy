/** generateInitialSolution: `list(range(n))` shuffled in place. The shuffle
    is the Fisher-Yates walk of Python's `random.shuffle`: for each position
    i = n-1 down to 1, draw j in [0, i] and exchange the values at i and j.
    The draws are supplied by the caller and indexed by position: the draw
    for position i is `draws[i - 1]`. */
module Generator {
  import opened Permutations

  /** `draws[i - 1]` is the draw made at position `i`, for every position
      1 <= i <= top; it lies in [0, i]. The walk consumes them last first. */
  predicate ValidDraws(draws: seq<nat>, top: nat) {
    top <= |draws| && forall k :: 0 <= k < top ==> draws[k] <= k + 1
  }

  /** The draws a shuffle of a list of length `n` consumes, one per position
      1..n-1. */
  predicate ValidShuffleDraws(draws: seq<nat>, n: nat) {
    var top := if n == 0 then 0 else n - 1;
    |draws| == top && ValidDraws(draws, top)
  }

  /** Fisher-Yates from position `top` down to position 1; positions above
      `top` are left alone. */
  function ShuffleDown(s: seq<nat>, draws: seq<nat>, top: nat): (r: seq<nat>)
    requires top < |s| && ValidDraws(draws, top)
    ensures |r| == |s| && multiset(r) == multiset(s)
    ensures forall k :: top < k < |s| ==> r[k] == s[k]
    decreases top
  {
    if top == 0 then s
    else ShuffleDown(Swap(s, top, draws[top - 1]), draws, top - 1)
  }

  /** generateInitialSolution(n) with the shuffle's draws injected. */
  function GenerateInitialSolution(n: nat, draws: seq<nat>): (r: seq<nat>)
    requires ValidShuffleDraws(draws, n)
    ensures IsPermutation(r, n)
  {
    if n == 0 then [] else ShuffleDown(Range(n), draws, n - 1)
  }

  /** The draw at position `top` decides the final value at `top`. */
  lemma ShuffleDownTop(s: seq<nat>, draws: seq<nat>, top: nat)
    requires top < |s| && ValidDraws(draws, top) && 0 < top
    ensures ShuffleDown(s, draws, top)[top] == s[draws[top - 1]]
  {
  }

  /** One step of the walk: the draw at `top`, then the walk below it. */
  lemma ShuffleDownStep(s: seq<nat>, draws: seq<nat>, below: nat, j: nat)
    requires below + 1 < |s| && ValidDraws(draws, below + 1) && draws[below] == j
    ensures j < |s| && ValidDraws(draws, below)
    ensures ShuffleDown(s, draws, below + 1) == ShuffleDown(Swap(s, below + 1, j), draws, below)
  {
  }

  /** Only the draws for positions 1..top matter. */
  lemma {:induction false} ShuffleDownUsesPrefix(s: seq<nat>, d1: seq<nat>, d2: seq<nat>, top: nat)
    requires top < |s| && ValidDraws(d1, top) && ValidDraws(d2, top)
    requires forall k :: 0 <= k < top ==> d1[k] == d2[k]
    ensures ShuffleDown(s, d1, top) == ShuffleDown(s, d2, top)
    decreases top
  {
    if top > 0 {
      var below: nat := top - 1;
      var j := d1[below];
      assert d2[below] == j;
      ShuffleDownStep(s, d1, below, j);
      ShuffleDownStep(s, d2, below, j);
      ShuffleDownUsesPrefix(Swap(s, top, j), d1, d2, below);
    }
  }

  /** Swapping inside a prefix commutes with taking the prefix. */
  lemma SwapPrefix(s: seq<nat>, i: nat, j: nat, m: nat)
    requires i < m && j < m && m <= |s|
    ensures Swap(s, i, j)[..m] == Swap(s[..m], i, j)
  {
  }

  /** A swap below position `m` leaves the suffix from `m` alone. */
  lemma SwapKeepsSuffix(s: seq<nat>, i: nat, j: nat, m: nat)
    requires i < m && j < m && m <= |s|
    ensures Swap(s, i, j)[m..] == s[m..]
  {
  }

  /** Two sequences agreeing at `m` and after it agree from `m` on. */
  lemma SuffixExtend(x: seq<nat>, y: seq<nat>, m: nat)
    requires m < |x| == |y| && x[m] == y[m] && x[m + 1..] == y[m + 1..]
    ensures x[m..] == y[m..]
  {
    assert x[m..] == [x[m]] + x[m + 1..];
    assert y[m..] == [y[m]] + y[m + 1..];
  }

  /** Equal multisets stay equal once an equal last element is dropped. */
  lemma MultisetDropLast(a: seq<nat>, b: seq<nat>, m: nat)
    requires |a| == m + 1 && |b| == m + 1 && multiset(a) == multiset(b) && a[m] == b[m]
    ensures multiset(a[..m]) == multiset(b[..m])
  {
    var x := a[m];
    assert a == a[..m] + [x];
    assert b == b[..m] + [x];
    assert multiset(a) == multiset(a[..m]) + multiset{x};
    assert multiset(b) == multiset(b[..m]) + multiset{x};
    assert multiset(a[..m]) == multiset(a) - multiset{x};
    assert multiset(b[..m]) == multiset(b) - multiset{x};
  }

  /** A value counted in the multiset of a sequence sits at some position. */
  lemma PositionOf(x: seq<nat>, v: nat) returns (j: nat)
    requires v in multiset(x)
    ensures j < |x| && x[j] == v
  {
    assert v in x;
    j :| 0 <= j < |x| && x[j] == v;
  }

  /** Exchanging position `top` with a position `j <= top` holding `p[top]`
      fixes position `top` and leaves an arrangement of `p`'s first `top`
      values below it. */
  lemma SwapIntoPlace(s: seq<nat>, p: seq<nat>, top: nat, j: nat)
    requires j <= top < |s| == |p| && s[j] == p[top]
    requires multiset(s[..top + 1]) == multiset(p[..top + 1])
    requires s[top + 1..] == p[top + 1..]
    ensures multiset(Swap(s, top, j)[..top]) == multiset(p[..top])
    ensures Swap(s, top, j)[top..] == p[top..]
  {
    var s' := Swap(s, top, j);
    var a, b := s'[..top + 1], p[..top + 1];
    SwapPrefix(s, top, j, top + 1);
    assert multiset(a) == multiset(b);
    assert a[top] == b[top];
    MultisetDropLast(a, b, top);
    assert a[..top] == s'[..top] && b[..top] == p[..top];
    SwapKeepsSuffix(s, top, j, top + 1);
    SuffixExtend(s', p, top);
  }

  /** The draw at `top` that brings `p[top]` into place: after it the first
      `top` values of `s` are an arrangement of those of `p`, and the rest
      already agree. */
  lemma ChooseDraw(s: seq<nat>, p: seq<nat>, top: nat) returns (j: nat)
    requires 0 < top < |s| == |p|
    requires multiset(s[..top + 1]) == multiset(p[..top + 1])
    requires s[top + 1..] == p[top + 1..]
    ensures j <= top
    ensures multiset(Swap(s, top, j)[..top]) == multiset(p[..top])
    ensures Swap(s, top, j)[top..] == p[top..]
  {
    var v := p[top];
    assert p[..top + 1][top] == v;
    j := PositionOf(s[..top + 1], v);
    SwapIntoPlace(s, p, top, j);
  }

  /** Every arrangement of the first top+1 values is produced by some draws. */
  lemma {:induction false} ShuffleDownReaches(s: seq<nat>, p: seq<nat>, top: nat) returns (draws: seq<nat>)
    requires top < |s| == |p|
    requires multiset(s[..top + 1]) == multiset(p[..top + 1])
    requires s[top + 1..] == p[top + 1..]
    ensures |draws| == top && ValidDraws(draws, top) && ShuffleDown(s, draws, top) == p
    decreases top
  {
    if top == 0 {
      SingleArrangement(s, p);
      draws := [];
    } else {
      var j := ChooseDraw(s, p, top);
      var s' := Swap(s, top, j);
      var below: nat := top - 1;
      var rest := ShuffleDownReaches(s', p, below);
      draws := ExtendDraws(rest, below, j);
      ShuffleDownUsesPrefix(s', rest, draws, below);
      ShuffleDownStep(s, draws, below, j);
    }
  }

  /** With one position left to arrange, `s` already is `p`. */
  lemma SingleArrangement(s: seq<nat>, p: seq<nat>)
    requires 0 < |s| == |p|
    requires multiset(s[..1]) == multiset(p[..1]) && s[1..] == p[1..]
    ensures s == p
  {
    assert s[..1] == [s[0]] && p[..1] == [p[0]];
    assert s[0] in multiset(p[..1]);
    assert s == s[..1] + s[1..] && p == p[..1] + p[1..];
  }

  /** Valid draws for positions 1..below, then the draw `j <= below + 1` for
      position below + 1. */
  lemma ExtendDraws(rest: seq<nat>, below: nat, j: nat) returns (draws: seq<nat>)
    requires |rest| == below && ValidDraws(rest, below) && j <= below + 1
    ensures |draws| == below + 1 && ValidDraws(draws, below + 1) && draws[below] == j
    ensures forall k :: 0 <= k < below ==> draws[k] == rest[k]
  {
    draws := rest + [j];
    forall k | 0 <= k < below + 1
      ensures draws[k] <= k + 1
    {
      if k < below {
        assert draws[k] == rest[k];
      }
    }
  }


  /** In a sequence of distinct values, equal values sit at equal positions. */
  lemma DistinctPositions(s: seq<nat>, i: nat, j: nat)
    requires Distinct(s) && i < |s| && j < |s| && s[i] == s[j]
    ensures i == j
  {
  }

  /** Different draws give different results when the values are distinct. */
  lemma {:induction false} ShuffleDownInjective(s: seq<nat>, d1: seq<nat>, d2: seq<nat>, top: nat)
    requires top < |s| && Distinct(s)
    requires ValidDraws(d1, top) && ValidDraws(d2, top)
    requires ShuffleDown(s, d1, top) == ShuffleDown(s, d2, top)
    ensures forall k :: 0 <= k < top ==> d1[k] == d2[k]
    decreases top
  {
    if top > 0 {
      var below: nat := top - 1;
      var j1, j2 := d1[below], d2[below];
      ShuffleDownTop(s, d1, top);
      ShuffleDownTop(s, d2, top);
      DistinctPositions(s, j1, j2);
      var s' := Swap(s, top, j1);
      SwapPreservesDistinct(s, top, j1);
      ShuffleDownStep(s, d1, below, j1);
      ShuffleDownStep(s, d2, below, j1);
      ShuffleDownInjective(s', d1, d2, below);
      forall k | 0 <= k < top
        ensures d1[k] == d2[k]
      {
        if k < below {
        } else {
          assert k == below;
        }
      }
    }
  }

  /** The shuffle can produce every permutation of 0..n-1. */
  lemma EveryPermutationReachable(p: seq<nat>, n: nat)
    requires IsPermutation(p, n)
    ensures exists draws :: ValidShuffleDraws(draws, n) && GenerateInitialSolution(n, draws) == p
  {
    PermutationIff(p, n);
    if n == 0 {
      assert GenerateInitialSolution(0, []) == p;
    } else {
      var s := Range(n);
      assert s[..n] == s && p[..n] == p;
      var draws := ShuffleDownReaches(s, p, n - 1);
      assert GenerateInitialSolution(n, draws) == p;
    }
  }

  lemma RangeDistinct(n: nat)
    ensures Distinct(Range(n))
  {
  }

  /** ... and each one from exactly one sequence of draws, so uniform draws
      give a uniformly distributed permutation. */
  lemma GenerateInjective(n: nat, d1: seq<nat>, d2: seq<nat>)
    requires ValidShuffleDraws(d1, n) && ValidShuffleDraws(d2, n)
    requires GenerateInitialSolution(n, d1) == GenerateInitialSolution(n, d2)
    ensures d1 == d2
  {
    if n > 0 {
      var top := n - 1;
      RangeDistinct(n);
      ShuffleDownInjective(Range(n), d1, d2, top);
      assert |d1| == top == |d2|;
    }
  }
}
