/** The Josephus circle, counted to three over an array in which the dead keep their slots. */
module Josephus {

  // ---------- the game on the queue of the living ----------

  /** The one at the head goes to the end. */
  function Turn(q: seq<nat>): (r: seq<nat>)
    requires |q| > 0
    ensures |r| == |q|
  {
    q[1..] + [q[0]]
  }

  /** Who dies, in order, when the count of the one at the head is `count + 1`. */
  function Kills(q: seq<nat>, count: nat): (k: seq<nat>)
    requires count < 3
    ensures |q| > 0 ==> |k| == |q| - 1
    decreases |q|, 3 - count
  {
    if |q| <= 1 then []
    else if count == 2 then [q[0]] + Kills(q[1..], 0)
    else Kills(Turn(q), count + 1)
  }

  function Survivor(q: seq<nat>, count: nat): nat
    requires |q| > 0 && count < 3
    decreases |q|, 3 - count
  {
    if |q| == 1 then q[0]
    else if count == 2 then Survivor(q[1..], 0)
    else Survivor(Turn(q), count + 1)
  }

  /** The classical recurrence: J(1) = 0, J(n) = (J(n-1) + 3) mod n. */
  function J(n: nat): (j: nat)
    requires n >= 1
    ensures j < n
  {
    if n == 1 then 0 else (J(n - 1) + 3) % n
  }

  /** The same for the k-th to die. */
  function Victim(n: nat, k: nat): (v: nat)
    requires k + 1 < n
    ensures v < n
    decreases n
  {
    if k == 0 then 2 % n else (Victim(n - 1, k - 1) + 3) % n
  }

  /** The circle after the first death, starting behind the dead. */
  function AfterFirst(q: seq<nat>): (r: seq<nat>)
    requires |q| > 1
    ensures |r| == |q| - 1
  {
    if |q| == 2 then [q[1]] else q[3..] + q[..2]
  }

  lemma AfterFirstAt(q: seq<nat>, j: nat)
    requires j + 1 < |q|
    ensures AfterFirst(q)[j] == q[(j + 3) % |q|]
  {
    Wraps(j + 3, |q|);
    if |q| == 2 {
      assert (j + 3) % |q| == 1;
    }
  }

  lemma Wraps(x: nat, n: nat)
    requires n > 0
    ensures x < n ==> x % n == x
    ensures n <= x < 2 * n ==> x % n == x - n
  {
  }

  lemma TwoTurns(q: seq<nat>)
    requires |q| > 1
    ensures var r := Turn(Turn(q)); r[0] == q[2 % |q|] && r[1..] == AfterFirst(q)
  {
    assert |q| > 2 ==> 2 % |q| == 2;
    if |q| == 2 {
      assert Turn(Turn(q)) == q;
    } else {
      assert Turn(Turn(q)) == q[2..] + q[..2];
    }
  }

  lemma ThreeCounts(q: seq<nat>)
    requires |q| > 1
    ensures Survivor(q, 0) == Survivor(AfterFirst(q), 0)
    ensures Kills(q, 0) == [q[2 % |q|]] + Kills(AfterFirst(q), 0)
  {
    hide Turn, AfterFirst;
    TwoTurns(q);
    assert Survivor(q, 0) == Survivor(Turn(q), 1) == Survivor(Turn(Turn(q)), 2);
    assert Kills(q, 0) == Kills(Turn(q), 1) == Kills(Turn(Turn(q)), 2);
  }

  /** Whoever stands where the recurrence says survives. */
  lemma {:induction false} SurvivorIs(q: seq<nat>)
    requires |q| > 0
    ensures Survivor(q, 0) == q[J(|q|)]
    decreases |q|
  {
    if |q| > 1 {
      ThreeCounts(q);
      SurvivorIs(AfterFirst(q));
      AfterFirstAt(q, J(|q| - 1));
    }
  }

  lemma {:induction false} VictimsAre(q: seq<nat>, k: nat)
    requires k + 1 < |q|
    ensures Kills(q, 0)[k] == q[Victim(|q|, k)]
    decreases |q|
  {
    ThreeCounts(q);
    if k > 0 {
      VictimsAre(AfterFirst(q), k - 1);
      AfterFirstAt(q, Victim(|q| - 1, k - 1));
    }
  }

  /** The dead and the survivor are everybody, each once. */
  lemma {:induction false} NobodyIsForgotten(q: seq<nat>, count: nat)
    requires |q| > 0 && count < 3
    ensures multiset(Kills(q, count)) + multiset{Survivor(q, count)} == multiset(q)
    decreases |q|, 3 - count
  {
    if |q| > 1 {
      assert q == [q[0]] + q[1..];
      if count == 2 {
        NobodyIsForgotten(q[1..], 0);
      } else {
        NobodyIsForgotten(Turn(q), count + 1);
      }
    }
  }

  // ---------- the queue of the living in the array ----------

  function Next(i: nat, n: nat): (j: nat)
    requires i < n
    ensures j < n && j == (i + 1) % n
  {
    if i + 1 < n then i + 1 else 0
  }

  /** The slot `d` steps on. */
  function Ahead(i: nat, d: nat, n: nat): nat
    requires i < n && d <= n
  {
    if i + d < n then i + d else i + d - n
  }

  function Here(dead: seq<bool>, i: nat): (q: seq<nat>)
    requires i < |dead|
    ensures |q| <= 1 && forall p :: p in q ==> p < |dead| && !dead[p]
  {
    if dead[i] then [] else [i]
  }

  /** The living among `d` slots from `i` on, around the circle. */
  function Scan(dead: seq<bool>, i: nat, d: nat): (q: seq<nat>)
    requires i < |dead|
    ensures |q| <= d
    ensures forall p :: p in q ==> p < |dead| && !dead[p]
    decreases d
  {
    if d == 0 then [] else Here(dead, i) + Scan(dead, Next(i, |dead|), d - 1)
  }

  function Living(dead: seq<bool>, i: nat): (q: seq<nat>)
    requires i < |dead|
    ensures forall p :: p in q ==> p < |dead| && !dead[p]
  {
    Scan(dead, i, |dead|)
  }

  lemma Regroup(a: seq<nat>, b: seq<nat>, c: seq<nat>)
    ensures a + (b + c) == a + b + c
  {
  }

  lemma {:induction false} ScanEnds(dead: seq<bool>, i: nat, d: nat)
    requires i < |dead| && d < |dead|
    ensures Scan(dead, i, d + 1) == Scan(dead, i, d) + Here(dead, Ahead(i, d, |dead|))
    decreases d
  {
    hide Here;
    if d > 0 {
      var next, last := Next(i, |dead|), Ahead(i, d, |dead|);
      ScanEnds(dead, next, d - 1);
      assert Ahead(next, d - 1, |dead|) == last;
      Regroup(Here(dead, i), Scan(dead, next, d - 1), Here(dead, last));
    }
  }

  lemma {:induction false} ScanElsewhere(dead: seq<bool>, k: nat, i: nat, d: nat)
    requires i < |dead| && k < |dead| && d < |dead|
    requires forall e :: 0 <= e < d ==> Ahead(i, e, |dead|) != k
    ensures Scan(dead[k := true], i, d) == Scan(dead, i, d)
    decreases d
  {
    if d > 0 {
      assert Ahead(i, 0, |dead|) == i;
      forall e | 0 <= e < d - 1 ensures Ahead(Next(i, |dead|), e, |dead|) != k {
        assert Ahead(i, e + 1, |dead|) != k;
      }
      ScanElsewhere(dead, k, Next(i, |dead|), d - 1);
    }
  }

  /** Moving on to the next slot turns the queue; passing the dead leaves it as it is. */
  lemma StepOn(dead: seq<bool>, i: nat)
    requires i < |dead|
    ensures var q := Living(dead, i);
            Living(dead, Next(i, |dead|))
            == if dead[i] then q else assert q[0] == i; Turn(q)
  {
    hide Scan, Living, Next, Ahead;
    var _ := BothWays(dead, i);
  }

  /** The slots behind `i`, with `i` in front of them or behind them. */
  lemma BothWays(dead: seq<bool>, i: nat) returns (others: seq<nat>)
    requires i < |dead|
    ensures others == Scan(dead, Next(i, |dead|), |dead| - 1)
    ensures Living(dead, i) == Here(dead, i) + others
    ensures Living(dead, Next(i, |dead|)) == others + Here(dead, i)
  {
    var n := |dead|;
    hide Here;
    ScanEnds(dead, Next(i, n), n - 1);
    assert Ahead(Next(i, n), n - 1, n) == i;
    others := Scan(dead, Next(i, n), n - 1);
  }

  /** Killing the one at the head and moving on drops it from the queue. */
  lemma KillAndStep(dead: seq<bool>, i: nat)
    requires i < |dead| && !dead[i]
    ensures var q := Living(dead, i);
            q != [] && q[0] == i && Living(dead[i := true], Next(i, |dead|)) == q[1..]
  {
    var n := |dead|;
    var others := BothWays(dead, i);
    var same := BothWays(dead[i := true], i);
    assert forall e :: 0 <= e < n - 1 ==> Ahead(Next(i, n), e, n) != i;
    ScanElsewhere(dead, i, Next(i, n), n - 1);
    hide Scan, Living, Next, Ahead;
    assert others == same;
  }

  /** Steps until the first of the living. */
  function Distance(q: seq<nat>, i: nat, n: nat): nat
    requires i < n
  {
    if q == [] || q[0] >= n then 0 else if q[0] >= i then q[0] - i else q[0] + n - i
  }

  lemma {:induction false} EverybodyLiving(dead: seq<bool>, i: nat, d: nat, p: nat)
    requires i < |dead| && p < |dead| && !dead[p] && d <= |dead|
    requires exists e :: 0 <= e < d && Ahead(i, e, |dead|) == p
    ensures p in Scan(dead, i, d)
    decreases d
  {
    var e :| 0 <= e < d && Ahead(i, e, |dead|) == p;
    if e > 0 {
      assert Ahead(Next(i, |dead|), e - 1, |dead|) == p;
      EverybodyLiving(dead, Next(i, |dead|), d - 1, p);
    }
  }

  /** The queue is the living, wherever it starts. */
  lemma LivingAreTheLiving(dead: seq<bool>, i: nat, p: nat)
    requires i < |dead| && p < |dead|
    ensures p in Living(dead, i) <==> !dead[p]
  {
    if !dead[p] {
      var e := if p >= i then p - i else p + |dead| - i;
      assert Ahead(i, e, |dead|) == p;
      EverybodyLiving(dead, i, |dead|, p);
    }
  }

  // ---------- the loop ----------

  /** The elimination loop from slot `start` with `people` alive. It ends although it passes the dead over
      and over, it kills in the order of the game, and only the survivor's slot stays unmarked. */
  method Eliminate(arr: array<bool>, start: nat, people: nat) returns (order: seq<nat>)
    requires start < arr.Length && people > 0 && people == |Living(arr[..], start)|
    modifies arr
    ensures order == Kills(old(Living(arr[..], start)), 0)
    ensures forall p :: 0 <= p < arr.Length ==> (!arr[p] <==> p == Survivor(old(Living(arr[..], start)), 0))
  {
    hide Living;
    var n := arr.Length;
    var i, count, kill := start, 0, 0;
    order := [];
    ghost var q0 := Living(arr[..], start);
    ghost var q := q0;
    while kill < people - 1
      invariant 0 <= i < n && 0 <= count < 3 && 0 <= kill <= people - 1
      invariant q == Living(arr[..], i) && |q| == people - kill
      invariant order + Kills(q, count) == Kills(q0, 0) && Survivor(q, count) == Survivor(q0, 0)
      decreases |q|, 3 - count, Distance(q, i, n)
    {
      ghost var dead := arr[..];
      assert q[0] in q;
      StepOn(dead, i);
      if !arr[i] {
        KillAndStep(dead, i);
        count := count + 1;
        if count == 3 {
          arr[i] := true;
          assert arr[..] == dead[i := true];
          order := order + [i];
          count := 0;
          kill := kill + 1;
          q := q[1..];
        } else {
          q := Turn(q);
        }
      }
      i := (i + 1) % n;
    }
    forall p | 0 <= p < n ensures !arr[p] <==> p == Survivor(q0, 0) {
      LivingAreTheLiving(arr[..], i, p);
    }
  }

  // ---------- the two programs ----------

  function Count(from: nat, n: nat): (q: seq<nat>)
    ensures |q| == n && forall j :: 0 <= j < n ==> q[j] == from + j
  {
    seq(n, j => from + j)
  }

  lemma {:induction false} AllLiving(dead: seq<bool>, i: nat, d: nat)
    requires i < |dead| && i + d <= |dead| && forall p :: i <= p < i + d ==> !dead[p]
    ensures Scan(dead, i, d) == Count(i, d)
    decreases d
  {
    if d > 0 {
      if d > 1 {
        AllLiving(dead, i + 1, d - 1);
      }
      assert Scan(dead, i, d) == [i] + Count(i + 1, d - 1);
    }
  }

  /** The first program, for any number of people: all of 0..n-1 alive, counting from 0. */
  method CircleFromZero(n: nat) returns (arr: array<bool>, order: seq<nat>)
    requires n >= 1
    ensures fresh(arr) && arr.Length == n && forall p :: 0 <= p < n ==> (!arr[p] <==> p == J(n))
    ensures |order| == n - 1 && forall k :: 0 <= k < n - 1 ==> order[k] == Victim(n, k)
  {
    arr := new bool[n](_ => false);
    ghost var q := Count(0, n);
    assert Living(arr[..], 0) == q by {
      AllLiving(arr[..], 0, n);
    }
    SurvivorIs(q);
    order := Eliminate(arr, 0, n);
    forall k | 0 <= k < n - 1 ensures order[k] == Victim(n, k) {
      VictimsAre(q, k);
    }
  }

  /** The second program, for any number of people: slot 0 is marked beforehand and counting starts at 1;
      then the first unmarked slot is reported. */
  method CircleFromOne(people: nat) returns (arr: array<bool>, order: seq<nat>, alive: nat)
    requires people >= 1
    ensures fresh(arr) && arr.Length == people + 1 && alive == J(people) + 1
    ensures forall p :: 0 <= p <= people ==> (!arr[p] <==> p == alive)
    ensures |order| == people - 1 && forall k :: 0 <= k < people - 1 ==> order[k] == Victim(people, k) + 1
  {
    arr := new bool[people + 1](i => i == 0);
    ghost var q := Count(1, people);
    assert Living(arr[..], 1) == q by {
      ScanEnds(arr[..], 1, people);
      AllLiving(arr[..], 1, people);
    }
    SurvivorIs(q);
    order := Eliminate(arr, 1, people);
    forall k | 0 <= k < people - 1 ensures order[k] == Victim(people, k) + 1 {
      VictimsAre(q, k);
    }
    alive := 0;
    while arr[alive]
      invariant 0 <= alive <= people && forall p :: 0 <= p < alive ==> arr[p]
      decreases people - alive
    {
      assert !arr[J(people) + 1];
      alive := alive + 1;
    }
  }
}
