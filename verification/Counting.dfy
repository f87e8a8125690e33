/** Counting the occurrences of a value in a sequence, as the shared counters of the programs do. */
module Counting {

  function Count<T(==)>(s: seq<T>, x: T): nat {
    if s == [] then 0 else Count(s[..|s| - 1], x) + if s[|s| - 1] == x then 1 else 0
  }

  lemma {:induction false} CountUpdate<T>(s: seq<T>, i: nat, to: T, x: T)
    requires i < |s|
    ensures Count(s[i := to], x) == Count(s, x) - (if s[i] == x then 1 else 0) + (if to == x then 1 else 0)
  {
    var last := |s| - 1;
    if i < last {
      assert s[i := to][..last] == s[..last][i := to];
      CountUpdate(s[..last], i, to, x);
    } else {
      assert s[i := to][..last] == s[..last];
    }
  }

  /** All counts after one position changes. */
  lemma CountsUpdate<T(!new)>(s: seq<T>, i: nat, to: T)
    requires i < |s|
    ensures forall x :: Count(s[i := to], x) == Count(s, x) - (if s[i] == x then 1 else 0) + (if to == x then 1 else 0)
  {
    forall x: T
      ensures Count(s[i := to], x) == Count(s, x) - (if s[i] == x then 1 else 0) + (if to == x then 1 else 0)
    {
      CountUpdate(s, i, to, x);
    }
  }

  lemma CountAppend<T>(s: seq<T>, y: T, x: T)
    ensures Count(s + [y], x) == Count(s, x) + if y == x then 1 else 0
  {
    assert (s + [y])[..|s|] == s;
  }

  lemma {:induction false} CountZero<T>(s: seq<T>, x: T)
    ensures Count(s, x) == 0 <==> forall i :: 0 <= i < |s| ==> s[i] != x
    ensures Count(s, x) <= |s|
    ensures Count(s, x) == |s| <==> forall i :: 0 <= i < |s| ==> s[i] == x
  {
    if s != [] {
      CountZero(s[..|s| - 1], x);
      assert forall i :: 0 <= i < |s| - 1 ==> s[..|s| - 1][i] == s[i];
    }
  }

  lemma {:induction false} CountConstant<T>(n: nat, x: T, y: T)
    ensures Count(seq(n, _ => x), y) == if x == y then n else 0
  {
    if n > 0 {
      CountConstant(n - 1, x, y);
      assert seq(n, _ => x)[..n - 1] == seq(n - 1, _ => x);
    }
  }
}
