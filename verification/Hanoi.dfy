/** The tower of Hanoi on three bounded stacks. */
module Hanoi {
  import opened Common

  const PILSIZE: nat := 10

  /** No disc lies on a smaller or equal one. */
  ghost predicate Decreasing(pile: seq<int>) {
    forall i, j :: 0 <= i < j < |pile| ==> pile[i] > pile[j]
  }

  /** The discs of `top` may go on `pile`. */
  predicate FitsOn(pile: seq<int>, top: seq<int>) {
    pile == [] || top == [] || pile[|pile| - 1] > top[0]
  }

  /** The number of a stack. */
  type Peg = k: nat | k < 3

  datatype Step = Step(src: Peg, dest: Peg)

  /** The moves of the recursion. */
  function Plan(src: Peg, dest: Peg, temp: Peg, n: nat): seq<Step>
    requires n >= 1
    decreases n
  {
    if n == 1 then [Step(src, dest)]
    else Plan(src, temp, dest, n - 1) + [Step(src, dest)] + Plan(temp, dest, src, n - 1)
  }

  lemma {:induction false} PlanLength(src: Peg, dest: Peg, temp: Peg, n: nat)
    requires n >= 1
    ensures |Plan(src, dest, temp, n)| == Pow2(n) - 1
    decreases n
  {
    if n > 1 {
      PlanLength(src, temp, dest, n - 1);
      PlanLength(temp, dest, src, n - 1);
    }
  }

  /** What moves come to: the piles and whether each disc was put onto a larger one or an empty pile; or the
      pile to take from was empty; or the stack to put onto was full. */
  datatype Played = Moved(piles: seq<seq<int>>, legal: bool) | NoDisc | NoRoom

  /** One move, taking before putting. */
  function Play(piles: seq<seq<int>>, s: Step): (r: Played)
    requires |piles| == 3
    ensures r.Moved? ==> |r.piles| == 3
  {
    if piles[s.src] == [] then NoDisc
    else
      var from := piles[s.src];
      var taken, disc := piles[s.src := from[..|from| - 1]], from[|from| - 1];
      var onto := taken[s.dest];
      if |onto| >= PILSIZE then NoRoom
      else Moved(taken[s.dest := onto + [disc]], FitsOn(onto, [disc]))
  }

  function PlayAll(piles: seq<seq<int>>, steps: seq<Step>): (r: Played)
    requires |piles| == 3
    ensures r.Moved? ==> |r.piles| == 3
    decreases |steps|
  {
    if steps == [] then Moved(piles, true)
    else
      match Play(piles, steps[0])
      case Moved(next, legal) => After(legal, PlayAll(next, steps[1..]))
      case failed => failed
  }

  /** A move takes the top disc of one pile to the top of another and nothing else; it cannot only if the one is
      empty or the other full. From piles in order it is legal if and only if it leaves piles in order. */
  lemma PlayExactly(piles: seq<seq<int>>, s: Step)
    requires |piles| == 3 && s.src != s.dest
    ensures var r, from, onto := Play(piles, s), piles[s.src], piles[s.dest];
            && (r == NoDisc <==> from == []) && (r == NoRoom <==> from != [] && |onto| >= PILSIZE)
            && (r.Moved? ==>
                  && r.piles[s.src] + [from[|from| - 1]] == from && r.piles[s.dest] == onto + [from[|from| - 1]]
                  && (forall k :: 0 <= k < 3 && k != s.src && k != s.dest ==> r.piles[k] == piles[k])
                  && ((forall k :: 0 <= k < 3 ==> Decreasing(piles[k])) ==>
                        (r.legal <==> forall k :: 0 <= k < 3 ==> Decreasing(r.piles[k]))))
  {
    var r, from, onto := Play(piles, s), piles[s.src], piles[s.dest];
    if r.Moved? && forall k :: 0 <= k < 3 ==> Decreasing(piles[k]) {
      var disc := from[|from| - 1];
      OntoOrdered(onto, disc);
      assert r.legal == FitsOn(onto, [disc]);
      assert Decreasing(from[..|from| - 1]);
      hide Decreasing, FitsOn;
      assert forall k :: 0 <= k < 3 ==> k == s.src || k == s.dest || r.piles[k] == piles[k];
    }
  }

  lemma OntoOrdered(onto: seq<int>, disc: int)
    requires Decreasing(onto)
    ensures Decreasing(onto + [disc]) <==> FitsOn(onto, [disc])
  {
    if onto != [] {
      assert (onto + [disc])[|onto| - 1] == onto[|onto| - 1] && (onto + [disc])[|onto|] == disc;
    }
  }

  /** Moves that follow moves that were all legal, or not. */
  function After(legal: bool, r: Played): (q: Played)
    ensures r.Moved? ==> q == Moved(r.piles, legal && r.legal)
    ensures !r.Moved? ==> q == r
  {
    match r
    case Moved(piles, l) => Moved(piles, legal && l)
    case failed => failed
  }

  lemma {:induction false} PlayBoth(piles: seq<seq<int>>, a: seq<Step>, b: seq<Step>)
    requires |piles| == 3
    ensures var r := PlayAll(piles, a);
            PlayAll(piles, a + b) == if r.Moved? then After(r.legal, PlayAll(r.piles, b)) else r
    decreases |a|
  {
    hide Play;
    if a == [] {
      assert a + b == b;
    } else {
      assert (a + b)[1..] == a[1..] + b;
      var r := Play(piles, a[0]);
      if r.Moved? {
        PlayBoth(r.piles, a[1..], b);
      }
    }
  }

  /** Three different stacks. */
  predicate Three(src: Peg, dest: Peg, temp: Peg) {
    src != dest && dest != temp && src != temp
  }

  /** Below and above the cut between the top `n` discs and the rest. */
  function Rest(pile: seq<int>, n: nat): seq<int>
    requires n <= |pile|
  {
    pile[..|pile| - n]
  }

  function Top(pile: seq<int>, n: nat): (t: seq<int>)
    requires n <= |pile|
    ensures |t| == n
  {
    pile[|pile| - n..]
  }

  /** The top `n` discs of `src` lie in order and would lie in order on every pile. */
  ghost predicate Ordered(piles: seq<seq<int>>, src: Peg, dest: Peg, temp: Peg, n: nat) {
    && |piles| == 3 && Three(src, dest, temp) && 1 <= n <= |piles[src]| <= PILSIZE
    && var top := Top(piles[src], n);
    && Decreasing(top) && FitsOn(Rest(piles[src], n), top) && FitsOn(piles[dest], top) && FitsOn(piles[temp], top[1..])
  }

  /** There is room for all of them on `dest` and for all but one on `temp`. */
  ghost predicate Room(piles: seq<seq<int>>, dest: Peg, temp: Peg, n: nat)
    requires |piles| == 3
  {
    |piles[dest]| + n <= PILSIZE && (n > 1 ==> |piles[temp]| + n - 1 <= PILSIZE)
  }

  /** The top `n` discs moved, in order. */
  function Shifted(piles: seq<seq<int>>, src: Peg, dest: Peg, n: nat): (r: seq<seq<int>>)
    requires |piles| == 3 && src != dest && n <= |piles[src]|
    ensures |r| == 3
  {
    piles[src := Rest(piles[src], n)][dest := piles[dest] + Top(piles[src], n)]
  }

  lemma OneDisc(piles: seq<seq<int>>, src: Peg, dest: Peg, temp: Peg)
    requires Ordered(piles, src, dest, temp, 1)
    ensures Play(piles, Step(src, dest))
            == if |piles[dest]| < PILSIZE then Moved(Shifted(piles, src, dest, 1), true) else NoRoom
  {
    assert Top(piles[src], 1) == [piles[src][|piles[src]| - 1]];
  }

  /** The three stages of moving `n` discs meet the condition of their parts. */
  lemma FirstStage(piles: seq<seq<int>>, src: Peg, dest: Peg, temp: Peg, n: nat)
    requires Ordered(piles, src, dest, temp, n) && n > 1
    ensures Ordered(piles, src, temp, dest, n - 1)
  {
    var top := Top(piles[src], n);
    assert Top(piles[src], n - 1) == top[1..];
  }

  lemma SecondStage(piles: seq<seq<int>>, src: Peg, dest: Peg, temp: Peg, n: nat)
    requires Ordered(piles, src, dest, temp, n) && n > 1
    ensures Ordered(Shifted(piles, src, temp, n - 1), src, dest, temp, 1)
  {
    var top := Top(piles[src], n);
    CutTwice(piles[src], n);
    hide Top, Rest;
    OneFits(Rest(piles[src], n), piles[dest], top);
  }

  lemma OneFits(below: seq<int>, dest: seq<int>, top: seq<int>)
    requires top != [] && FitsOn(below, top) && FitsOn(dest, top)
    ensures Decreasing([top[0]]) && FitsOn(below, [top[0]]) && FitsOn(dest, [top[0]]) && [top[0]][1..] == []
  {
  }

  lemma CutTwice(pile: seq<int>, n: nat)
    requires 1 <= n <= |pile|
    ensures Top(Rest(pile, n - 1), 1) == [Top(pile, n)[0]] && Rest(Rest(pile, n - 1), 1) == Rest(pile, n)
  {
  }

  /** The piles when the largest disc has been moved. */
  function Middle(piles: seq<seq<int>>, src: Peg, dest: Peg, temp: Peg, n: nat): (r: seq<seq<int>>)
    requires |piles| == 3 && Three(src, dest, temp) && 1 < n <= |piles[src]|
    ensures |r| == 3
    ensures r[src] == Rest(piles[src], n)
    ensures r[dest] == piles[dest] + Top(piles[src], n)[..1]
    ensures r[temp] == piles[temp] + Top(piles[src], n)[1..]
  {
    var piles1 := Shifted(piles, src, temp, n - 1);
    assert Top(piles[src], n - 1) == Top(piles[src], n)[1..];
    assert Top(piles1[src], 1) == Top(piles[src], n)[..1] && Rest(piles1[src], 1) == Rest(piles[src], n);
    Shifted(piles1, src, dest, 1)
  }

  lemma ThirdStage(piles: seq<seq<int>>, src: Peg, dest: Peg, temp: Peg, n: nat)
    requires Ordered(piles, src, dest, temp, n) && n > 1 && |piles[temp]| + n - 1 <= PILSIZE
    ensures Ordered(Middle(piles, src, dest, temp, n), temp, dest, src, n - 1)
  {
    hide Middle;
    var top, m := Top(piles[src], n), Middle(piles, src, dest, temp, n);
    assert Top(m[temp], n - 1) == top[1..] && Rest(m[temp], n - 1) == piles[temp];
    assert m[dest][|m[dest]| - 1] == top[0];
  }

  lemma ThirdShift(piles: seq<seq<int>>, src: Peg, dest: Peg, temp: Peg, n: nat)
    requires |piles| == 3 && Three(src, dest, temp) && 1 < n <= |piles[src]|
    ensures Shifted(Middle(piles, src, dest, temp, n), temp, dest, n - 1) == Shifted(piles, src, dest, n)
  {
    hide Middle;
    var top, m := Top(piles[src], n), Middle(piles, src, dest, temp, n);
    CutBehind(piles[temp], top[1..]);
    assert piles[dest] + top[..1] + top[1..] == piles[dest] + top;
    hide Top, Rest;
    var a, b := Shifted(m, temp, dest, n - 1), Shifted(piles, src, dest, n);
    assert a[src] == b[src] && a[dest] == b[dest] && a[temp] == b[temp];
    assert forall k :: 0 <= k < 3 ==> a[k] == b[k];
  }

  lemma CutBehind(pile: seq<int>, top: seq<int>)
    ensures Top(pile + top, |top|) == top && Rest(pile + top, |top|) == pile
  {
  }

  lemma PlayOne(piles: seq<seq<int>>, src: Peg, dest: Peg, temp: Peg)
    requires Ordered(piles, src, dest, temp, 1)
    ensures PlayAll(piles, [Step(src, dest)])
            == if |piles[dest]| < PILSIZE then Moved(Shifted(piles, src, dest, 1), true) else NoRoom
  {
    OneDisc(piles, src, dest, temp);
    assert [Step(src, dest)][1..] == [];
  }

  lemma Heights(piles: seq<seq<int>>, src: Peg, dest: Peg, temp: Peg, n: nat)
    requires Ordered(piles, src, dest, temp, n) && n > 1
    ensures |piles| == 3 && Three(src, dest, temp) && n <= |piles[src]| <= PILSIZE
    ensures var a, m := Shifted(piles, src, temp, n - 1), Middle(piles, src, dest, temp, n);
            && |a[dest]| == |piles[dest]| && n < |a[src]| + n && m == Shifted(a, src, dest, 1)
            && |m[dest]| == |piles[dest]| + 1 && |m[src]| == |piles[src]| - n
  {
  }

  lemma PlanStages(piles: seq<seq<int>>, src: Peg, dest: Peg, temp: Peg, n: nat)
    requires |piles| == 3 && n > 1
    ensures var r1 := PlayAll(piles, Plan(src, temp, dest, n - 1));
            PlayAll(piles, Plan(src, dest, temp, n))
            == if !r1.Moved? then r1
               else
                 var r2 := PlayAll(r1.piles, [Step(src, dest)]);
                 var rest := if r2.Moved? then PlayAll(r2.piles, Plan(temp, dest, src, n - 1)) else r2;
                 After(r1.legal, if r2.Moved? then After(r2.legal, rest) else r2)
  {
    hide PlayAll;
    var first, last := Plan(src, temp, dest, n - 1), Plan(temp, dest, src, n - 1);
    PlayBoth(piles, first + [Step(src, dest)], last);
    PlayBoth(piles, first, [Step(src, dest)]);
  }

  /** What the recursive calls come to. */
  ghost predicate Works(piles: seq<seq<int>>, src: Peg, dest: Peg, temp: Peg, n: nat)
    requires Ordered(piles, src, dest, temp, n)
  {
    PlayAll(piles, Plan(src, dest, temp, n))
    == if Room(piles, dest, temp, n) then Moved(Shifted(piles, src, dest, n), true) else NoRoom
  }

  lemma StagesWork(piles: seq<seq<int>>, src: Peg, dest: Peg, temp: Peg, n: nat)
    requires Ordered(piles, src, dest, temp, n) && n > 1
    requires Ordered(piles, src, temp, dest, n - 1) && Works(piles, src, temp, dest, n - 1)
    requires var m := Middle(piles, src, dest, temp, n);
             |piles[temp]| + n - 1 <= PILSIZE ==> Ordered(m, temp, dest, src, n - 1) && Works(m, temp, dest, src, n - 1)
    ensures Works(piles, src, dest, temp, n)
  {
    hide Shifted, Play, PlayAll, Middle, Plan, Decreasing, FitsOn, Top, Rest;
    Heights(piles, src, dest, temp, n);
    hide Ordered;
    PlanStages(piles, src, dest, temp, n);
    if Room(piles, temp, dest, n - 1) {
      SecondStage(piles, src, dest, temp, n);
      PlayOne(Shifted(piles, src, temp, n - 1), src, dest, temp);
      ThirdShift(piles, src, dest, temp, n);
    }
  }

  /** For any number of discs and any contents of the stacks that the discs may lie on: the recursion makes
      only legal moves and shifts the tower if and only if there is room; otherwise some push overflows. */
  lemma {:induction false} PlanWorksExactly(piles: seq<seq<int>>, src: Peg, dest: Peg, temp: Peg, n: nat)
    requires Ordered(piles, src, dest, temp, n)
    ensures PlayAll(piles, Plan(src, dest, temp, n))
            == if Room(piles, dest, temp, n) then Moved(Shifted(piles, src, dest, n), true) else NoRoom
    decreases n
  {
    hide Shifted, Play, PlayAll, Middle, Decreasing, FitsOn, Top, Rest;
    if n == 1 {
      PlayOne(piles, src, dest, temp);
    } else {
      FirstStage(piles, src, dest, temp, n);
      PlanWorksExactly(piles, src, temp, dest, n - 1);
      if |piles[temp]| + n - 1 <= PILSIZE {
        ThirdStage(piles, src, dest, temp, n);
        PlanWorksExactly(Middle(piles, src, dest, temp, n), temp, dest, src, n - 1);
      }
      StagesWork(piles, src, dest, temp, n);
    }
  }

  // ---------- the stacks ----------

  class Pillar {
    const stack: array<int>
    var num: nat

    constructor (discs: seq<int>)
      requires |discs| <= PILSIZE
      ensures fresh(stack) && Valid() && Pile() == discs
    {
      stack := new int[PILSIZE](k => if 0 <= k < |discs| then discs[k] else 0);
      num := |discs|;
    }

    ghost predicate Valid()
      reads this
    {
      num <= stack.Length == PILSIZE
    }

    ghost function Pile(): (p: seq<int>)
      requires Valid()
      reads this, stack
      ensures |p| == num
    {
      stack[..num]
    }

    /** `push`, which checks nothing: without room it would write behind the stack. */
    method Push(val: int)
      requires Valid() && num < PILSIZE
      modifies this, stack
      ensures Valid() && Pile() == old(Pile()) + [val]
    {
      stack[num] := val;
      num := num + 1;
    }

    /** `pop` */
    method Pop() returns (val: int)
      requires Valid() && num > 0
      modifies this
      ensures Valid() && old(Pile()) == Pile() + [val]
    {
      num := num - 1;
      val := stack[num];
    }
  }

  class Towers {
    const a: Pillar
    const b: Pillar
    const c: Pillar

    constructor (discs: seq<int>)
      requires |discs| <= PILSIZE
      ensures Valid() && Piles() == [discs, [], []]
      ensures fresh(a) && fresh(b) && fresh(c) && fresh(a.stack) && fresh(b.stack) && fresh(c.stack)
    {
      a := new Pillar(discs);
      b := new Pillar([]);
      c := new Pillar([]);
    }

    ghost predicate Valid()
      reads a, b, c
    {
      && a != b && b != c && a != c
      && a.stack != b.stack && b.stack != c.stack && a.stack != c.stack
      && a.Valid() && b.Valid() && c.Valid()
    }

    ghost function Piles(): (p: seq<seq<int>>)
      requires Valid()
      reads a, b, c, a.stack, b.stack, c.stack
      ensures |p| == 3
    {
      [a.Pile(), b.Pile(), c.Pile()]
    }

    function At(k: Peg): Pillar {
      if k == 0 then a else if k == 1 then b else c
    }

    /** `move`, which looks at no disc: the stack to take from must not be empty, and after that the other must
        not be full. */
    method Move(src: Peg, dest: Peg)
      requires Valid() && Play(Piles(), Step(src, dest)).Moved?
      modifies a, b, c, a.stack, b.stack, c.stack
      ensures Valid() && Piles() == Play(old(Piles()), Step(src, dest)).piles
    {
      ghost var from := Piles()[src];
      var val := At(src).Pop();
      assert Piles()[src] == from[..|from| - 1];
      At(dest).Push(val);
    }

    /** `hannoi`, for any discs: it plays its plan, when no stack it takes from is empty and none it puts onto is
        full. */
    method Solve(src: Peg, dest: Peg, temp: Peg, n: nat)
      requires Valid() && n >= 1 && PlayAll(Piles(), Plan(src, dest, temp, n)).Moved?
      modifies a, b, c, a.stack, b.stack, c.stack
      ensures Valid() && Piles() == PlayAll(old(Piles()), Plan(src, dest, temp, n)).piles
      decreases n
    {
      hide Play;
      if n == 1 {
        OneMove(Piles(), src, dest);
        Move(src, dest);
        return;
      }
      PlanStages(Piles(), src, dest, temp, n);
      Solve(src, temp, dest, n - 1);
      OneMove(Piles(), src, dest);
      Move(src, dest);
      Solve(temp, dest, src, n - 1);
    }
  }

  lemma OneMove(piles: seq<seq<int>>, src: Peg, dest: Peg)
    requires |piles| == 3
    ensures PlayAll(piles, [Step(src, dest)]) == Play(piles, Step(src, dest))
  {
    assert [Step(src, dest)][1..] == [];
  }

  /** The program, for any tower that a stack can hold: from the first stack to the second. */
  method MoveTower(discs: seq<int>) returns (t: Towers)
    requires 1 <= |discs| <= PILSIZE && Decreasing(discs)
    ensures t.Valid() && t.Piles() == [[], discs, []]
  {
    t := new Towers(discs);
    var n := |discs|;
    assert Top(discs, n) == discs && Rest(discs, n) == [];
    PlanWorksExactly(t.Piles(), 0, 1, 2, n);
    t.Solve(0, 1, 2, n);
    assert [] + discs == discs;
  }
}
