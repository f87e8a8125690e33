/** Quicksort on one array, with the partition that swaps the pivot from end to end. */
module QuickSort {
  import opened Exchange

  ghost predicate AtMost(s: seq<int>, lo: nat, hi: nat, v: int) {
    hi <= |s| && forall k :: lo <= k < hi ==> s[k] <= v
  }

  ghost predicate AtLeast(s: seq<int>, lo: nat, hi: nat, v: int) {
    hi <= |s| && forall k :: lo <= k < hi ==> s[k] >= v
  }

  method SwapAt(p: array<int>, m: nat, n: nat)
    requires m < p.Length && n < p.Length
    modifies p
    ensures p[..] == Swap(old(p[..]), m, n)
  {
    var tmp := p[m];
    p[m] := p[n];
    p[n] := tmp;
  }

  /** `partation`: the first element ends where everything before it is no larger and everything behind it
      no smaller; only the stretch is permuted. */
  method Partition(p: array<int>, low0: nat, high0: nat) returns (pos: nat)
    requires low0 <= high0 < p.Length
    modifies p
    ensures low0 <= pos <= high0 && p[pos] == old(p[low0])
    ensures AtMost(p[..], low0, pos, p[pos]) && AtLeast(p[..], pos + 1, high0 + 1, p[pos])
    ensures Permuted(old(p[..]), p[..], low0, high0 + 1)
  {
    hide Permuted;
    var pv := p[low0];
    var low, high := low0, high0;
    ghost var s0 := p[..];
    PermutedSelf(s0, low0, high0 + 1);
    while low < high
      invariant low0 <= low <= high <= high0 && p[low] == pv
      invariant forall k :: low0 <= k < low ==> p[k] <= pv
      invariant forall k :: high < k <= high0 ==> p[k] >= pv
      invariant Permuted(s0, p[..], low0, high0 + 1)
      decreases high - low
    {
      ghost var width := high - low;
      while p[high] >= pv && low < high
        invariant low <= high <= high0 && high - low <= width
        invariant forall k :: high < k <= high0 ==> p[k] >= pv
        decreases high - low
      {
        high := high - 1;
      }
      Exchanged(p, low, high, low0, high0 + 1, s0);
      assert p[high] == pv;
      while p[low] <= pv && low < high
        invariant low0 <= low <= high && high - low <= width
        invariant forall k :: low0 <= k < low ==> p[k] <= pv
        invariant low < high && high - low == width ==> p[low] < pv
        decreases high - low
      {
        low := low + 1;
      }
      Exchanged(p, low, high, low0, high0 + 1, s0);
    }
    pos := low;
  }

  /** The swap, kept inside the stretch being sorted. */
  method Exchanged(p: array<int>, m: nat, n: nat, lo: nat, hi: nat, ghost s0: seq<int>)
    requires lo <= m < hi <= p.Length && lo <= n < hi && Permuted(s0, p[..], lo, hi)
    modifies p
    ensures p[m] == old(p[n]) && p[n] == old(p[m])
    ensures forall k :: 0 <= k < p.Length && k != m && k != n ==> p[k] == old(p[k])
    ensures Permuted(s0, p[..], lo, hi)
  {
    hide Permuted;
    ghost var s := p[..];
    SwapAt(p, m, n);
    SwapPermutes(s, m, n, lo, hi);
    PermutedTwice(s0, s, p[..], lo, hi);
    assert forall k :: 0 <= k < p.Length ==> p[k] == p[..][k];
  }

  /** Sorting each side keeps the sides apart, so the whole is sorted. */
  lemma SidesStayApart(s: seq<int>, t: seq<int>, lo: nat, hi: nat, v: int)
    requires Permuted(s, t, lo, hi)
    ensures AtMost(s, lo, hi, v) ==> AtMost(t, lo, hi, v)
    ensures AtLeast(s, lo, hi, v) ==> AtLeast(t, lo, hi, v)
  {
    forall k | lo <= k < hi ensures exists j :: lo <= j < hi && t[k] == s[j] {
      var j := ComesFrom(s, t, lo, hi, k);
    }
  }

  lemma Outside(s: seq<int>, t: seq<int>, lo: nat, hi: nat)
    requires Permuted(s, t, lo, hi)
    ensures forall k :: 0 <= k < lo || hi <= k < |s| ==> s[k] == t[k]
  {
    assert forall k :: 0 <= k < lo ==> s[k] == s[..lo][k] == t[k];
    assert forall k :: hi <= k < |s| ==> s[k] == s[hi..][k - hi] == t[hi..][k - hi];
  }

  lemma JoinedSorted(s: seq<int>, a: seq<int>, b: seq<int>, c: seq<int>, low: nat, pos: nat, high: nat)
    requires low <= pos < high <= |a| && Permuted(s, a, low, high)
    requires Permuted(a, b, low, pos) && Permuted(b, c, pos + 1, high)
    requires AtMost(a, low, pos, a[pos]) && AtLeast(a, pos + 1, high, a[pos])
    requires SortedFrom(b, low, pos) && SortedFrom(c, pos + 1, high)
    ensures SortedFrom(c, low, high) && Permuted(s, c, low, high)
  {
    Outside(a, b, low, pos);
    Outside(b, c, pos + 1, high);
    SidesStayApart(a, b, low, pos, a[pos]);
    assert AtLeast(b, pos + 1, high, a[pos]);
    SidesStayApart(b, c, pos + 1, high, a[pos]);
    PermutedWithin(a, b, low, pos, low, high);
    PermutedWithin(b, c, pos + 1, high, low, high);
    PermutedTwice(a, b, c, low, high);
    PermutedTwice(s, a, c, low, high);
  }

  /** `_Qsort`, from `low` to `high`, which may be one below `low`. */
  method SortRange(p: array<int>, low: int, high: int)
    requires 0 <= low <= high + 1 <= p.Length
    modifies p
    ensures SortedFrom(p[..], low, high + 1) && Permuted(old(p[..]), p[..], low, high + 1)
    decreases high - low + 1
  {
    hide Permuted;
    ghost var s := p[..];
    PermutedSelf(s, low, high + 1);
    if low < high {
      hide SortedFrom, AtMost, AtLeast;
      var pos: int := Partition(p, low, high);
      ghost var a := p[..];
      SortRange(p, low, pos - 1);
      ghost var b := p[..];
      SortRange(p, pos + 1, high);
      JoinedSorted(s, a, b, p[..], low, pos, high + 1);
    }
  }

  /** `Qsort` sorts any array, empty or not. */
  method Sort(p: array<int>)
    modifies p
    ensures Sorted(p[..]) && multiset(p[..]) == multiset(old(p[..]))
  {
    SortRange(p, 0, p.Length - 1);
    assert p[..] == p[..][0..p.Length] && old(p[..]) == old(p[..])[0..p.Length];
  }
}
