/** Permutations of 0..n-1, the solution representation of the assignment
    problem: position t of a solution is a task and the value at t is the
    agent assigned to it. */
module Permutations {

  /** The list `[0, 1, ..., n-1]`, the starting point of every shuffle. */
  function Range(n: nat): (r: seq<nat>)
    ensures |r| == n
    ensures forall i :: 0 <= i < n ==> r[i] == i
  {
    if n == 0 then [] else Range(n - 1) + [n - 1]
  }

  /** `p` holds every value of [0, n) exactly once and nothing else. */
  predicate IsPermutation(p: seq<nat>, n: nat) {
    multiset(p) == multiset(Range(n))
  }

  /** No value occurs at two positions. */
  predicate Distinct(s: seq<nat>) {
    forall i, j :: 0 <= i < j < |s| ==> s[i] != s[j]
  }

  /** Every value is below `n`. */
  predicate Bounded(s: seq<nat>, n: nat) {
    forall i :: 0 <= i < |s| ==> s[i] < n
  }

  /** The values at positions `i` and `j` exchanged; `i == j` leaves `s` as it is. */
  function Swap(s: seq<nat>, i: nat, j: nat): (r: seq<nat>)
    requires i < |s| && j < |s|
    ensures |r| == |s|
    ensures r[i] == s[j] && r[j] == s[i]
    ensures forall k :: 0 <= k < |s| && k != i && k != j ==> r[k] == s[k]
    ensures multiset(r) == multiset(s)
  {
    s[i := s[j]][j := s[i]]
  }

  /** Swapping the same two positions again restores the original. */
  lemma SwapInvolution(s: seq<nat>, i: nat, j: nat)
    requires i < |s| && j < |s|
    ensures Swap(Swap(s, i, j), i, j) == s
  {
  }

  /** A swap maps permutations of 0..n-1 to permutations of 0..n-1. */
  lemma SwapPreservesPermutation(s: seq<nat>, i: nat, j: nat, n: nat)
    requires i < |s| && j < |s|
    ensures IsPermutation(Swap(s, i, j), n) <==> IsPermutation(s, n)
  {
  }

  /** A swap keeps the values distinct. */
  lemma SwapPreservesDistinct(s: seq<nat>, i: nat, j: nat)
    requires i < |s| && j < |s| && Distinct(s)
    ensures Distinct(Swap(s, i, j))
  {
    var r := Swap(s, i, j);
    forall x, y | 0 <= x < y < |r|
      ensures r[x] != r[y]
    {
      var x' := if x == i then j else if x == j then i else x;
      var y' := if y == i then j else if y == j then i else y;
      assert r[x] == s[x'] && r[y] == s[y'] && x' != y';
    }
  }

  /** `s` without its element at position `k`. */
  function RemoveAt(s: seq<nat>, k: nat): (r: seq<nat>)
    requires k < |s|
    ensures |r| == |s| - 1
    ensures forall x :: 0 <= x < k ==> r[x] == s[x]
    ensures forall x :: k <= x < |r| ==> r[x] == s[x + 1]
    ensures multiset(s) == multiset(r) + multiset{s[k]}
  {
    assert s == s[..k] + [s[k]] + s[k + 1..];
    s[..k] + s[k + 1..]
  }

  /** Each value below `n` occurs exactly once in `Range(n)`. */
  lemma {:induction false} RangeCounts(n: nat, v: nat)
    ensures multiset(Range(n))[v] == if v < n then 1 else 0
  {
    if n > 0 {
      var r, last: nat := Range(n - 1), n - 1;
      RangeCounts(n - 1, v);
      assert Range(n) == r + [last];
      SnocCount(r, last, v);
    }
  }

  /** Appending `x` adds one occurrence of `x` and nothing else. */
  lemma SnocCount(r: seq<nat>, x: nat, v: nat)
    ensures multiset(r + [x])[v] == multiset(r)[v] + if v == x then 1 else 0
  {
    assert multiset(r + [x]) == multiset(r) + multiset{x};
  }

  /** Pigeonhole: at most `m` distinct values lie below `m`. */
  lemma {:induction false} DistinctBoundedLength(s: seq<nat>, m: nat)
    requires Distinct(s) && Bounded(s, m)
    ensures |s| <= m
  {
    if |s| == 0 {
    } else if k :| 0 <= k < |s| && s[k] == m - 1 {
      var r := RemoveAt(s, k);
      forall x | 0 <= x < |r|
        ensures r[x] < m - 1
      {
        if x < k {
          assert r[x] == s[x] && s[x] != s[k];
        } else {
          assert r[x] == s[x + 1] && s[x + 1] != s[k];
        }
      }
      assert Distinct(r) by {
        forall x, y | 0 <= x < y < |r|
          ensures r[x] != r[y]
        {
          var x' := if x < k then x else x + 1;
          var y' := if y < k then y else y + 1;
          assert r[x] == s[x'] && r[y] == s[y'] && x' < y';
        }
      }
      DistinctBoundedLength(r, m - 1);
    } else {
      assert s[0] < m;
      assert Bounded(s, m - 1) by {
        forall x | 0 <= x < |s|
          ensures s[x] < m - 1
        {
          assert s[x] != m - 1;
        }
      }
      DistinctBoundedLength(s, m - 1);
    }
  }

  /** A permutation of 0..n-1 is exactly a sequence of length `n` whose
      values are distinct and below `n`. */
  lemma PermutationIff(p: seq<nat>, n: nat)
    ensures IsPermutation(p, n) <==> |p| == n && Bounded(p, n) && Distinct(p)
  {
    if IsPermutation(p, n) {
      PermutationIsDistinctBounded(p, n);
    }
    if |p| == n && Bounded(p, n) && Distinct(p) {
      DistinctBoundedIsPermutation(p, n);
    }
  }

  lemma PermutationIsDistinctBounded(p: seq<nat>, n: nat)
    requires IsPermutation(p, n)
    ensures |p| == n && Bounded(p, n) && Distinct(p)
  {
    assert |p| == |multiset(p)| == |multiset(Range(n))| == n;
    forall i | 0 <= i < |p|
      ensures p[i] < n
    {
      assert p[i] in multiset(p);
      RangeCounts(n, p[i]);
    }
    forall i, j | 0 <= i < j < |p|
      ensures p[i] != p[j]
    {
      if p[i] == p[j] {
        var v := p[i];
        assert p == p[..j] + p[j..];
        assert multiset(p) == multiset(p[..j]) + multiset(p[j..]);
        assert p[..j][i] == v;
        assert p[j..][0] == v;
        assert multiset(p[..j])[v] >= 1 && multiset(p[j..])[v] >= 1;
        RangeCounts(n, v);
        assert false;
      }
    }
  }

  lemma {:induction false} DistinctBoundedIsPermutation(p: seq<nat>, n: nat)
    requires |p| == n && Bounded(p, n) && Distinct(p)
    ensures IsPermutation(p, n)
  {
    if n > 0 {
      if k :| 0 <= k < |p| && p[k] == n - 1 {
        var r := RemoveAt(p, k);
        forall x | 0 <= x < |r|
          ensures r[x] < n - 1
        {
          if x < k {
            assert r[x] == p[x] && p[x] != p[k];
          } else {
            assert r[x] == p[x + 1] && p[x + 1] != p[k];
          }
        }
        assert Distinct(r) by {
          forall x, y | 0 <= x < y < |r|
            ensures r[x] != r[y]
          {
            var x' := if x < k then x else x + 1;
            var y' := if y < k then y else y + 1;
            assert r[x] == p[x'] && r[y] == p[y'] && x' < y';
          }
        }
        DistinctBoundedIsPermutation(r, n - 1);
        assert Range(n) == Range(n - 1) + [n - 1];
      } else {
        assert Bounded(p, n - 1) by {
          forall x | 0 <= x < |p|
            ensures p[x] < n - 1
          {
            assert p[x] != n - 1;
          }
        }
        DistinctBoundedLength(p, n - 1);
        assert false;
      }
    }
  }
}
