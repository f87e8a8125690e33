/** Exchanging two elements, permuting a stretch of a sequence, and order. */
module Exchange {

  function Swap<T>(s: seq<T>, i: nat, j: nat): (t: seq<T>)
    requires i < |s| && j < |s|
    ensures |t| == |s| && multiset(t) == multiset(s)
    ensures t[i] == s[j] && t[j] == s[i] && forall k :: 0 <= k < |s| && k != i && k != j ==> t[k] == s[k]
  {
    assert multiset(s[i := s[j]][j := s[i]]) == multiset(s);
    s[i := s[j]][j := s[i]]
  }

  ghost predicate SortedFrom(s: seq<int>, lo: nat, hi: nat) {
    hi <= |s| && forall i, j :: lo <= i < j < hi ==> s[i] <= s[j]
  }

  ghost predicate Sorted(s: seq<int>) {
    SortedFrom(s, 0, |s|)
  }

  /** `t` is `s` with the elements from `lo` up to `hi` in another order. */
  ghost predicate Permuted<T>(s: seq<T>, t: seq<T>, lo: nat, hi: nat) {
    && lo <= hi <= |s| == |t|
    && s[..lo] == t[..lo] && s[hi..] == t[hi..]
    && multiset(s[lo..hi]) == multiset(t[lo..hi])
  }

  lemma SwapPermutes<T>(s: seq<T>, i: nat, j: nat, lo: nat, hi: nat)
    requires lo <= i < hi <= |s| && lo <= j < hi
    ensures Permuted(s, Swap(s, i, j), lo, hi)
  {
    assert Swap(s, i, j)[lo..hi] == Swap(s[lo..hi], i - lo, j - lo);
  }

  lemma PermutedSelf<T>(s: seq<T>, lo: nat, hi: nat)
    requires lo <= hi <= |s|
    ensures Permuted(s, s, lo, hi)
  {
  }

  lemma PermutedTwice<T>(s: seq<T>, t: seq<T>, u: seq<T>, lo: nat, hi: nat)
    requires Permuted(s, t, lo, hi) && Permuted(t, u, lo, hi)
    ensures Permuted(s, u, lo, hi)
  {
  }

  lemma PermutedWithin<T>(s: seq<T>, t: seq<T>, lo: nat, hi: nat, from: nat, to: nat)
    requires Permuted(s, t, lo, hi) && from <= lo && hi <= to <= |s|
    ensures Permuted(s, t, from, to)
  {
    assert s[from..to] == s[from..lo] + s[lo..hi] + s[hi..to];
    assert t[from..to] == t[from..lo] + t[lo..hi] + t[hi..to];
    assert s[from..lo] == s[..lo][from..] && t[from..lo] == t[..lo][from..];
    assert s[hi..to] == s[hi..][..to - hi] && t[hi..to] == t[hi..][..to - hi];
    assert s[..from] == s[..lo][..from] && t[..from] == t[..lo][..from];
    assert s[to..] == s[hi..][to - hi..] && t[to..] == t[hi..][to - hi..];
  }

  /** A permuted element was there before. */
  lemma ComesFrom<T>(s: seq<T>, t: seq<T>, lo: nat, hi: nat, k: nat) returns (j: nat)
    requires Permuted(s, t, lo, hi) && lo <= k < hi
    ensures lo <= j < hi && t[k] == s[j]
  {
    assert t[lo..hi][k - lo] in multiset(t[lo..hi]);
    assert t[k] in multiset(s[lo..hi]);
    var i :| 0 <= i < hi - lo && s[lo..hi][i] == t[k];
    j := lo + i;
  }
}
