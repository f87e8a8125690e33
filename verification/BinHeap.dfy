/** The bounded binary heap, moving a hole through its array. */
module BinHeap {
  import opened Exchange
  import opened HeapOrder

  const MIN_PQ_CAPACITY: int := 10

  class PriorityQueue {
    const arr: array<int>
    const capacity: int
    var size: int

    /** `Init` for a capacity it accepts; see Create for the rest. */
    constructor (capacity: int)
      requires capacity >= MIN_PQ_CAPACITY
      ensures fresh(arr) && this.capacity == capacity && Valid() && Contents() == multiset{}
    {
      arr := new int[capacity + 1];
      this.capacity := capacity;
      size := 0;
      new;
      arr[0] := MIN_DATA;
      assert arr[..1] == [MIN_DATA];
    }

    ghost predicate Valid()
      reads this, arr
    {
      && MIN_PQ_CAPACITY <= capacity == arr.Length - 1
      && 0 <= size <= capacity
      && Heap(arr[..size + 1])
    }

    ghost function Contents(): multiset<int>
      requires Valid()
      reads this, arr
    {
      multiset(arr[1..size + 1])
    }

    lemma CancelSentinel(c: multiset<int>, d: multiset<int>)
      requires c + multiset{MIN_DATA} == d + multiset{MIN_DATA}
      ensures c == d
    {
      assert c == c + multiset{MIN_DATA} - multiset{MIN_DATA};
    }

    lemma TakenOne(was: multiset<int>, now: multiset<int>, before: multiset<int>, after: multiset<int>, min: int)
      requires before == was + multiset{MIN_DATA} && after == now + multiset{MIN_DATA}
      requires min in was && after == before - multiset{min}
      ensures now == was - multiset{min}
    {
      CancelSentinel(now, was - multiset{min});
    }

    /** The live part of the array is the sentinel and the contents. */
    lemma LiveIs()
      requires Valid()
      ensures multiset(arr[..size + 1]) == Contents() + multiset{MIN_DATA}
    {
      assert arr[..size + 1] == [arr[0]] + arr[1..size + 1];
    }

    method MakeEmpty()
      requires Valid()
      modifies this
      ensures Valid() && Contents() == multiset{}
    {
      size := 0;
      assert arr[..1] == [MIN_DATA];
    }

    predicate IsEmpty()
      reads this
    {
      size == 0
    }

    predicate IsFull()
      reads this
    {
      size == capacity
    }

    /** The array is `s` but for the hole at `i`, where `s` has the value that is to go there. */
    ghost predicate HoleAt(s: seq<int>, i: nat, val: int)
      reads this, arr
    {
      i < |s| == size + 1 <= arr.Length && s[i] == val && forall k :: 0 <= k < |s| && k != i ==> arr[k] == s[k]
    }

    /** The loop of `Insert`: the hole climbs from the last slot to where `val` belongs. */
    method ClimbAndFill(val: int, ghost s: seq<int>) returns (ghost t: seq<int>)
      requires size >= 1 && val >= MIN_DATA && SmallAt(s, size) && HoleAt(s, size, val)
      modifies arr
      ensures size < arr.Length && t == arr[..size + 1] && Heap(t) && multiset(t) == multiset(s)
    {
      hide Heap, SmallAt, Swap;
      var i := size;
      t := s;
      while val < arr[i / 2]
        invariant 1 <= i <= size && HoleAt(t, i, val)
        invariant SmallAt(t, i) && multiset(t) == multiset(s)
        decreases i
      {
        UpStep(t, i);
        t := Swap(t, i, i / 2);
        arr[i] := arr[i / 2];
        i := i / 2;
      }
      UpDone(t, i);
      arr[i] := val;
    }

    /** `ok` is false where the program reports a full queue and exits. A value below the sentinel never
        leaves the loop; see InsertEndsExactly. */
    method Insert(val: int) returns (ok: bool)
      requires Valid() && val >= MIN_DATA
      modifies this`size, arr
      ensures Valid() && (ok <==> old(|Contents()|) < capacity)
      ensures Contents() == if ok then old(Contents()) + multiset{val} else old(Contents())
    {
      hide Heap, SmallAt;
      assert |arr[1..size + 1]| == size;
      if IsFull() {
        return false;
      }
      LiveIs();
      ghost var s := arr[..size + 1];
      UpStarts(s, val);
      size := size + 1;
      ghost var t := ClimbAndFill(val, s + [val]);
      LiveIs();
      CancelSentinel(Contents(), old(Contents()) + multiset{val});
      return true;
    }

    /** The loop of `DeleteMin`: the hole sinks from the root to where `last` belongs. */
    method SinkAndFill(last: int, ghost s: seq<int>) returns (ghost t: seq<int>)
      requires size >= 1 && LargeAt(s, 1) && HoleAt(s, 1, last)
      modifies arr
      ensures size < arr.Length && t == arr[..size + 1] && Heap(t) && multiset(t) == multiset(s)
    {
      hide Heap, LargeAt, Swap;
      var i := 1;
      t := s;
      while 2 * i <= size
        invariant 1 <= i <= size && HoleAt(t, i, last)
        invariant LargeAt(t, i) && multiset(t) == multiset(s)
        decreases size - i
      {
        var child := 2 * i;
        if child < size && arr[child] > arr[child + 1] {
          child := child + 1;
        }
        assert child == Child(t, i);
        if last > arr[child] {
          DownStep(t, i);
          t := Swap(t, i, child);
          arr[i] := arr[child];
        } else {
          break;
        }
        i := child;
      }
      DownDone(t, i);
      arr[i] := last;
    }

    /** The last slot is given up and its value takes the place of the root. */
    method DropRoot(ghost s: seq<int>) returns (ghost t: seq<int>)
      requires 1 <= size < arr.Length && s == arr[..size + 1] && Heap(s)
      modifies this`size, arr
      ensures size == old(size) - 1 && t == arr[..size + 1] && Heap(t) && multiset(t) == multiset(s) - multiset{s[1]}
    {
      hide Heap, LargeAt;
      HeapHead(s);
      var last := arr[size];
      size := size - 1;
      if size == 0 {
        arr[1] := last;
        t := arr[..1];
        assert t == [MIN_DATA] && s == [MIN_DATA, s[1]];
        SentinelAlone(t);
      } else {
        DownStarts(s);
        t := SinkAndFill(last, s[..size + 1][1 := last]);
      }
    }

    /** `ok` is false where the program reports an empty queue and exits. */
    method DeleteMin() returns (ok: bool, min: int)
      requires Valid()
      modifies this`size, arr
      ensures Valid() && (ok <==> old(Contents()) != multiset{})
      ensures if ok then min in old(Contents()) && Contents() == old(Contents()) - multiset{min}
              else Contents() == old(Contents())
      ensures ok ==> forall x :: x in old(Contents()) ==> min <= x
    {
      hide Heap;
      if IsEmpty() {
        assert arr[1..size + 1] == [];
        return false, 0;
      }
      ghost var was, s := Contents(), arr[..size + 1];
      LiveIs();
      MinIsAtRoot();
      ok, min := true, arr[1];
      ghost var t := DropRoot(s);
      LiveIs();
      TakenOne(was, Contents(), multiset(s), multiset(t), min);
    }

    lemma SentinelAlone(s: seq<int>)
      requires s == [MIN_DATA]
      ensures Heap(s)
    {
    }

    lemma HeapHead(s: seq<int>)
      requires Heap(s)
      ensures |s| > 0 && s[0] == MIN_DATA
    {
    }

    lemma MinIsAtRoot()
      requires Valid() && size > 0
      ensures arr[1] in Contents() && forall x :: x in Contents() ==> MIN_DATA <= arr[1] <= x
    {
      assert arr[1..size + 1][0] == arr[1];
      forall x | x in Contents() ensures MIN_DATA <= arr[1] <= x {
        var k :| 0 <= k < size && arr[1..size + 1][k] == x;
        RootIsLeast(arr[..size + 1], k + 1);
      }
    }

    method FindMin() returns (ok: bool, min: int)
      requires Valid()
      ensures ok <==> Contents() != multiset{}
      ensures ok ==> min in Contents() && forall x :: x in Contents() ==> min <= x
    {
      if IsEmpty() {
        assert arr[1..size + 1] == [];
        return false, 0;
      }
      MinIsAtRoot();
      return true, arr[1];
    }

    /** The test program's loop: what comes out is the contents, in order. */
    method Drain() returns (out: seq<int>)
      requires Valid()
      modifies this, arr
      ensures Valid() && Contents() == multiset{}
      ensures Sorted(out) && multiset(out) == old(Contents())
    {
      hide Heap;
      out := [];
      ghost var rest := Contents();
      while size > 0
        invariant Valid() && rest == Contents() && multiset(out) + rest == old(Contents()) && InOrder(out, rest)
        decreases size
      {
        assert |arr[1..size + 1]| == size;
        var ok, min := DeleteMin();
        assert |arr[1..size + 1]| == size;
        NextInOrder(out, rest, min);
        out := out + [min];
        rest := Contents();
      }
      assert arr[1..size + 1] == [];
    }
  }

  /** Drawn so far in order, and nothing left is smaller. */
  ghost predicate InOrder(out: seq<int>, rest: multiset<int>) {
    Sorted(out) && forall k, x :: 0 <= k < |out| && x in rest ==> out[k] <= x
  }

  lemma NextInOrder(out: seq<int>, rest: multiset<int>, min: int)
    requires InOrder(out, rest) && min in rest && forall x :: x in rest ==> min <= x
    ensures InOrder(out + [min], rest - multiset{min})
    ensures multiset(out + [min]) + (rest - multiset{min}) == multiset(out) + rest
  {
  }

  /** `Init`: a capacity below the minimum is refused. */
  method Create(capacity: int) returns (h: PriorityQueue?)
    ensures h == null <==> capacity < MIN_PQ_CAPACITY
    ensures h != null ==> fresh(h) && h.Valid() && h.capacity == capacity && h.Contents() == multiset{}
  {
    if capacity < MIN_PQ_CAPACITY {
      return null;
    }
    h := new PriorityQueue(capacity);
  }

  // ---------- when the insertion loop ends ----------

  /** The array and the hole after `n` passes of the insertion loop. */
  function Passes(s: seq<int>, i: nat, n: nat): (r: (seq<int>, nat))
    requires i < |s|
    ensures |r.0| == |s| && r.1 <= i
  {
    if n == 0 then (s, i) else
      var (t, j) := Passes(s, i, n - 1);
      (t[j := t[j / 2]], j / 2)
  }

  ghost predicate GoesOn(s: seq<int>, i: nat, val: int, n: nat)
    requires i < |s|
  {
    var (t, j) := Passes(s, i, n); val < t[j / 2]
  }

  lemma {:induction false} PassesKeepFloor(s: seq<int>, i: nat, n: nat)
    requires i < |s| && forall k :: 0 <= k < |s| ==> s[k] >= MIN_DATA
    ensures forall k :: 0 <= k < |s| ==> Passes(s, i, n).0[k] >= MIN_DATA
    decreases n
  {
    if n > 0 {
      PassesKeepFloor(s, i, n - 1);
    }
  }

  lemma {:induction false} PassesClimb(s: seq<int>, i: nat, n: nat)
    requires i < |s| && s[0] == MIN_DATA
    ensures Passes(s, i, n).0[0] == MIN_DATA
    ensures (n > 0 && i > 0 ==> Passes(s, i, n).1 < i) && (i <= n ==> Passes(s, i, n).1 == 0)
    ensures Passes(s, i, n).1 + n <= i || Passes(s, i, n).1 == 0
    decreases n
  {
    if n > 0 {
      PassesClimb(s, i, n - 1);
    }
  }

  /** Inserting into a heap ends if and only if the value is not below the sentinel. */
  lemma InsertEndsExactly(s: seq<int>, val: int)
    requires Heap(s)
    ensures (exists n: nat :: !GoesOn(s + [val], |s|, val, n)) <==> val >= MIN_DATA
  {
    if val >= MIN_DATA {
      PassesClimb(s + [val], |s|, |s|);
      assert !GoesOn(s + [val], |s|, val, |s|);
    } else {
      // Slot |s| is overwritten in the first pass, so any value may stand for what it held.
      var t := s + [val];
      forall n: nat ensures GoesOn(t, |s|, val, n) {
        if n == 0 {
          FloorOfHeap(s, |s| / 2);
        } else {
          LaterPasses(t, |s|, n);
          var u := t[|s| := t[|s| / 2]];
          forall k | 0 <= k < |u| ensures u[k] >= MIN_DATA {
            FloorOfHeap(s, if k < |s| then k else |s| / 2);
          }
          PassesKeepFloor(u, |s| / 2, n - 1);
        }
      }
    }
  }

  lemma FloorOfHeap(s: seq<int>, k: nat)
    requires Heap(s) && k < |s|
    ensures s[k] >= MIN_DATA
  {
    if k > 0 {
      RootIsLeast(s, k);
    }
  }

  lemma {:induction false} LaterPasses(s: seq<int>, i: nat, n: nat)
    requires i < |s| && n > 0
    ensures Passes(s, i, n) == Passes(s[i := s[i / 2]], i / 2, n - 1)
    decreases n
  {
    if n > 1 {
      LaterPasses(s, i, n - 1);
    } else {
      assert Passes(s, i, 0) == (s, i);
    }
  }
}
