/** Sequence helpers shared by the viewer and the site generator. */
module Seqs {

  /** JavaScript's `Array.prototype.indexOf`: the first index holding `x`, or -1. */
  function IndexOf<T(==)>(s: seq<T>, x: T): (i: int)
    ensures -1 <= i < |s|
    ensures i == -1 <==> x !in s
    ensures 0 <= i ==> s[i] == x && x !in s[..i]
  {
    if s == [] then -1
    else if s[0] == x then 0
    else
      var j := IndexOf(s[1..], x);
      assert s[1..][..if j < 0 then 0 else j] == s[1..1 + if j < 0 then 0 else j];
      if j == -1 then -1 else j + 1
  }

  /** No element occurs twice. */
  predicate Distinct<T(==)>(s: seq<T>)
  {
    forall i, j :: 0 <= i < j < |s| ==> s[i] != s[j]
  }

  /** A sequence without repetitions drawn from a finite set is no longer than the set. */
  lemma {:induction false} DistinctBound<T>(s: seq<T>, elems: set<T>)
    requires Distinct(s)
    requires forall i :: 0 <= i < |s| ==> s[i] in elems
    ensures |s| <= |elems|
  {
    if s != [] {
      var last := s[|s| - 1];
      var rest := s[..|s| - 1];
      assert forall i :: 0 <= i < |rest| ==> rest[i] in elems - {last} by {
        forall i | 0 <= i < |rest| ensures rest[i] in elems - {last} {
          assert rest[i] == s[i] && i < |s| - 1;
        }
      }
      DistinctBound(rest, elems - {last});
    }
  }

  /** An index holding `x` with no earlier `x` is the one `IndexOf` finds. */
  lemma IndexOfUnique<T>(s: seq<T>, x: T, k: int)
    requires 0 <= k < |s| && s[k] == x && x !in s[..k]
    ensures IndexOf(s, x) == k
  {
  }

  /** Appending to a sequence moves no first occurrence, and a new element is found after the old part. */
  lemma IndexOfPrefix<T>(s: seq<T>, t: seq<T>, x: T)
    requires x in s + t
    ensures x in s ==> IndexOf(s + t, x) == IndexOf(s, x)
    ensures x !in s ==> IndexOf(s + t, x) == |s| + IndexOf(t, x)
  {
    if x in s {
      var k := IndexOf(s, x);
      assert (s + t)[..k] == s[..k];
      IndexOfUnique(s + t, x, k);
    } else {
      var k := IndexOf(t, x);
      assert (s + t)[..|s| + k] == s + t[..k];
      IndexOfUnique(s + t, x, |s| + k);
    }
  }

  /** Appending to a sequence leaves the first index of an element it already holds unchanged. */
  lemma IndexOfExtend<T>(s: seq<T>, t: seq<T>, x: T)
    requires 0 <= IndexOf(s, x)
    ensures IndexOf(s + t, x) == IndexOf(s, x)
  {
    IndexOfPrefix(s, t, x);
  }

  /** In a sequence without repetitions, the `k`-th element is found at `k`. */
  lemma IndexOfDistinct<T>(s: seq<T>, k: int)
    requires Distinct(s) && 0 <= k < |s|
    ensures IndexOf(s, s[k]) == k
  {
    IndexOfUnique(s, s[k], k);
  }

  /**
   * Every element of `sub` first occurs in `s` before index `n`, and `sub` lists them in the order
   * of those first occurrences (each after the one before it).
   */
  predicate FollowsOrder<T(==)>(s: seq<T>, sub: seq<T>, n: int)
  {
    && (forall a :: 0 <= a < |sub| ==> 0 <= IndexOf(s, sub[a]) < n)
    && (forall a :: 0 < a < |sub| ==> IndexOf(s, sub[a - 1]) < IndexOf(s, sub[a]))
  }

  /** In a sequence that follows the order of `s`, every element comes after all earlier ones. */
  lemma {:induction false} FollowsOrderIncreasing<T>(s: seq<T>, sub: seq<T>, n: int, a: nat, b: nat)
    requires FollowsOrder(s, sub, n) && a < b < |sub|
    ensures IndexOf(s, sub[a]) < IndexOf(s, sub[b])
  {
    if a < b - 1 {
      FollowsOrderIncreasing(s, sub, n, a, b - 1);
    }
  }

  /** A sequence that follows the order of `s` repeats no element. */
  lemma FollowsOrderDistinct<T>(s: seq<T>, sub: seq<T>, n: int)
    requires FollowsOrder(s, sub, n)
    ensures Distinct(sub)
  {
    forall a, b | 0 <= a < b < |sub|
      ensures sub[a] != sub[b]
    {
      FollowsOrderIncreasing(s, sub, n, a, b);
    }
  }
}
