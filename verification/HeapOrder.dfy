/** Heap order on a sequence with a sentinel in slot 0, and what moving a hole does to it. */
module HeapOrder {
  import opened Exchange

  const MIN_DATA: int := -32767

  ghost predicate Above(s: seq<int>, k: int) {
    1 <= k < |s| && s[k / 2] <= s[k]
  }

  /** Every slot's parent is no larger; slot 0 holds the sentinel. */
  ghost predicate Heap(s: seq<int>) {
    |s| > 0 && s[0] == MIN_DATA && forall k :: 1 <= k < |s| ==> Above(s, k)
  }

  lemma {:induction false} RootIsLeast(s: seq<int>, k: nat)
    requires Heap(s) && 1 <= k < |s|
    ensures MIN_DATA <= s[1] <= s[k]
  {
    assert Above(s, k) && Above(s, 1);
    if k > 1 {
      RootIsLeast(s, k / 2);
    }
  }

  // ---------- up ----------

  /** A heap but for slot `i`, which may be too small for its place; what is below `i` fits below its parent. */
  ghost predicate SmallAt(s: seq<int>, i: nat) {
    && 1 <= i < |s| && s[0] == MIN_DATA
    && (forall k :: 1 <= k < |s| && k != i ==> Above(s, k))
    && (forall k :: 1 <= k < |s| && k / 2 == i ==> s[i / 2] <= s[k])
  }

  lemma UpStep(s: seq<int>, i: nat)
    requires SmallAt(s, i) && s[i] < s[i / 2] && s[i] >= MIN_DATA
    ensures i / 2 >= 1 && SmallAt(Swap(s, i, i / 2), i / 2)
  {
    var p := i / 2;
    assert p >= 1;
    var t := Swap(s, i, p);
    forall k | 1 <= k < |s| && k != p ensures Above(t, k) {
      assert k != i ==> Above(s, k);
      assert Above(s, p);
    }
    forall k | 1 <= k < |s| && k / 2 == p ensures t[p / 2] <= t[k] {
      assert k != i ==> Above(s, k);
      assert Above(s, p);
    }
  }

  lemma UpDone(s: seq<int>, i: nat)
    requires SmallAt(s, i) && s[i] >= s[i / 2]
    ensures Heap(s)
  {
    forall k | 1 <= k < |s| ensures Above(s, k) {}
  }

  lemma UpStarts(s: seq<int>, val: int)
    requires Heap(s)
    ensures SmallAt(s + [val], |s|)
  {
    forall k | 1 <= k < |s| ensures Above(s + [val], k) {
      assert Above(s, k);
    }
  }

  // ---------- down ----------

  /** A heap but for slot `i`, which may be too large for its place; what is below `i` fits below its parent. */
  ghost predicate LargeAt(s: seq<int>, i: nat) {
    && 1 <= i < |s| && s[0] == MIN_DATA
    && (forall k :: 1 <= k < |s| && k / 2 != i ==> Above(s, k))
    && (forall k :: 1 <= k < |s| && k / 2 == i ==> s[i / 2] <= s[k])
  }

  /** The smaller child of `i`. */
  function Child(s: seq<int>, i: nat): (c: nat)
    requires 1 <= i && 2 * i < |s|
    ensures c / 2 == i && i < c < |s|
    ensures forall k :: 1 <= k < |s| && k / 2 == i ==> s[c] <= s[k]
  {
    if 2 * i + 1 < |s| && s[2 * i] > s[2 * i + 1] then 2 * i + 1 else 2 * i
  }

  lemma DownStep(s: seq<int>, i: nat)
    requires LargeAt(s, i) && 2 * i < |s| && s[i] > s[Child(s, i)]
    ensures LargeAt(Swap(s, i, Child(s, i)), Child(s, i))
  {
    var c := Child(s, i);
    var t := Swap(s, i, c);
    forall k | 1 <= k < |s| && k / 2 != c ensures Above(t, k) {
      assert k / 2 != i ==> Above(s, k);
    }
    forall k | 1 <= k < |s| && k / 2 == c ensures t[c / 2] <= t[k] {
      assert Above(s, k);
    }
  }

  lemma DownDone(s: seq<int>, i: nat)
    requires LargeAt(s, i) && (2 * i >= |s| || s[i] <= s[Child(s, i)])
    ensures Heap(s)
  {
    forall k | 1 <= k < |s| ensures Above(s, k) {}
  }

  /** Taking the last slot away and putting its value in the root. */
  lemma DownStarts(s: seq<int>)
    requires Heap(s) && |s| > 2
    ensures var n := |s| - 1; LargeAt(s[..n][1 := s[n]], 1)
    ensures var n := |s| - 1; multiset(s[..n][1 := s[n]]) == multiset(s) - multiset{s[1]}
  {
    var n := |s| - 1;
    var t := s[..n][1 := s[n]];
    assert s == s[..n] + [s[n]];
    assert multiset(s) == multiset(s[..n]) + multiset{s[n]};
    RootIsLeast(s, n);
    forall k | 1 <= k < n && k / 2 != 1 ensures Above(t, k) {
      assert Above(s, k);
    }
    forall k | 1 <= k < n && k / 2 == 1 ensures t[1 / 2] <= t[k] {
      RootIsLeast(s, k);
    }
  }
}
