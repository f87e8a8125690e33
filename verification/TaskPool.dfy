/** Numbers handed through one shared slot from the main thread to any number of workers, each of which
    tests whether its number is prime. */
module TaskPool {
  import opened Counting

  // ---------- the test ----------

  ghost predicate Divides(d: int, n: int)
    requires d > 0
  {
    n % d == 0
  }

  ghost predicate Prime(n: int) {
    n >= 2 && forall d :: 2 <= d < n ==> !Divides(d, n)
  }

  /** What the worker's loop decides. */
  ghost predicate PassesTest(i: int) {
    forall d :: 2 <= d < i / 2 ==> !Divides(d, i)
  }

  /** The divisor loop with its flag. */
  method TrialDivision(i: int) returns (flag: bool)
    requires i > 0
    ensures flag <==> PassesTest(i)
  {
    flag := true;
    var j := 2;
    while j < i / 2
      invariant 2 <= j && flag && forall d :: 2 <= d < j ==> !Divides(d, i)
    {
      if i % j == 0 {
        assert Divides(j, i);
        flag := false;
        break;
      }
      j := j + 1;
    }
  }

  /** Stopping before i/2 decides primality for every positive number except 1 and 4, which it calls prime. */
  lemma TestIsRightExactly(i: int)
    requires i > 0
    ensures (PassesTest(i) <==> Prime(i)) <==> i != 1 && i != 4
  {
    if i == 4 {
      assert Divides(2, 4);
    }
    if i >= 5 && PassesTest(i) {
      forall d | 2 <= d < i ensures !Divides(d, i) {
        if Divides(d, i) {
          LargeDivisor(d, i);
        }
      }
    }
  }

  /** A proper divisor of a number above 4 that is not below its half is its half, and then 2 is one below. */
  lemma LargeDivisor(d: int, i: int)
    requires i >= 5 && 2 <= d < i && Divides(d, i)
    ensures d < i / 2 || (2 < i / 2 && Divides(2, i))
  {
    var e := i / d;
    assert i == d * e;
    assert e <= 1 ==> d * e <= d;
    assert e == 2 ==> i == 2 * d;
    assert e >= 3 ==> d * e >= d * 3;
  }

  // ---------- the hand-off ----------

  datatype Worker = Seeking | Testing(i: int) | Gone

  /** `Feeding`: about to look at the slot; `Checking`: about to compare `cnt` with the last number;
      `Publishing`: out of numbers; `Joining`: the -1 is in the slot. */
  datatype Main = Feeding | Checking | Publishing | Joining | Exited

  /** `taken` and `tested` record the numbers in the order they were taken and tested. */
  datatype State = State(num: int, cnt: int, main: Main, workers: seq<Worker>, taken: seq<int>, tested: seq<int>)

  datatype Config = Config(min: int, max: int, threads: nat)

  predicate Fair(c: Config) {
    0 < c.min <= c.max && c.threads >= 1
  }

  datatype Move = MainMoves | WorkerMoves(w: nat)

  function Start(c: Config): State {
    State(c.min, c.min, Feeding, seq(c.threads, _ => Seeking), [], [])
  }

  /** The slot is read and written under one mutex only, so each critical section is one step. */
  function MainStep(c: Config, s: State): State {
    match s.main
    case Feeding =>
      if s.num == 0 then s.(cnt := s.cnt + 1, num := s.num + s.cnt + 1, main := Checking) else s.(main := Checking)
    case Checking => s.(main := if s.cnt > c.max then Publishing else Feeding)
    case Publishing => s.(num := -1, main := Joining)
    case Joining => if Count(s.workers, Gone) == |s.workers| then s.(main := Exited) else s
    case Exited => s
  }

  function WorkerStep(s: State, w: nat): State
    requires w < |s.workers|
  {
    match s.workers[w]
    case Seeking =>
      if s.num > 0 then s.(workers := s.workers[w := Testing(s.num)], num := 0, taken := s.taken + [s.num])
      else if s.num == -1 then s.(workers := s.workers[w := Gone])
      else s
    case Testing(i) => s.(workers := s.workers[w := Seeking], tested := s.tested + [i])
    case Gone => s
  }

  function Step(c: Config, s: State, m: Move): State {
    match m
    case MainMoves => MainStep(c, s)
    case WorkerMoves(w) => if w < |s.workers| then WorkerStep(s, w) else s
  }

  function Run(c: Config, moves: seq<Move>): State
    decreases |moves|
  {
    if moves == [] then Start(c) else Step(c, Run(c, moves[..|moves| - 1]), moves[|moves| - 1])
  }

  // ---------- what every interleaving keeps ----------

  /** The numbers from `from` on. */
  function Numbers(from: int, n: nat): (s: seq<int>)
    ensures |s| == n && forall j :: 0 <= j < n ==> s[j] == from + j
  {
    if n == 0 then [] else Numbers(from, n - 1) + [from + n - 1]
  }

  /** How many numbers have been taken, by the slot and the counter. */
  ghost predicate Slot(c: Config, s: State) {
    && c.min <= s.cnt <= c.max + 1
    && (s.main.Feeding? ==> s.cnt <= c.max)
    && match s.main
       case Feeding =>
         if s.num == 0 then |s.taken| == s.cnt - c.min + 1 else s.num == s.cnt && |s.taken| == s.cnt - c.min
       case Checking =>
         if s.num == 0 then |s.taken| == s.cnt - c.min + 1 else s.num == s.cnt && |s.taken| == s.cnt - c.min
       case Publishing =>
         && s.cnt == c.max + 1
         && if s.num == 0 then |s.taken| == s.cnt - c.min + 1 else s.num == s.cnt && |s.taken| == s.cnt - c.min
       case _ => s.num == -1 && s.cnt == c.max + 1 && c.max + 1 - c.min <= |s.taken| <= c.max + 2 - c.min
  }

  /** What is taken is tested or in some worker's hand. */
  ghost predicate Accounts(s: State) {
    forall n :: Count(s.taken, n) == Count(s.tested, n) + Count(s.workers, Testing(n))
  }

  ghost predicate Ending(s: State) {
    && (forall w :: 0 <= w < |s.workers| && s.workers[w] == Gone ==> s.num == -1)
    && (s.main == Exited ==> Count(s.workers, Gone) == |s.workers|)
  }

  ghost predicate Sound(c: Config, s: State) {
    && |s.workers| == c.threads
    && Slot(c, s) && s.taken == Numbers(c.min, |s.taken|)
    && Ending(s) && Accounts(s)
  }

  lemma SlotKept(c: Config, s: State, m: Move)
    requires Fair(c) && Slot(c, s) && s.taken == Numbers(c.min, |s.taken|)
    ensures var t := Step(c, s, m); Slot(c, t) && t.taken == Numbers(c.min, |t.taken|)
    ensures s.num == -1 ==> Step(c, s, m).num == -1
    ensures s.taken <= Step(c, s, m).taken
  {
  }

  lemma EndingKept(c: Config, s: State, m: Move)
    requires Ending(s) && Slot(c, s) && Fair(c)
    ensures Ending(Step(c, s, m))
  {
    hide Slot;
    if m.WorkerMoves? && m.w < |s.workers| {
      CountUpdate(s.workers, m.w, WorkerStep(s, m.w).workers[m.w], Gone);
      CountZero(s.workers, Gone);
    }
    assert s.num == -1 ==> Step(c, s, m).num == -1 by { EndMarkKept(c, s, m); }
  }

  lemma EndMarkKept(c: Config, s: State, m: Move)
    requires Slot(c, s) && Fair(c)
    ensures s.num == -1 ==> Step(c, s, m).num == -1
  {
  }

  lemma AccountsKept(c: Config, s: State, m: Move)
    requires Accounts(s)
    ensures Accounts(Step(c, s, m))
  {
    hide Count;
    if m.WorkerMoves? && m.w < |s.workers| {
      var t := WorkerStep(s, m.w);
      forall n ensures Count(t.taken, n) == Count(t.tested, n) + Count(t.workers, Testing(n)) {
        assert Count(s.taken, n) == Count(s.tested, n) + Count(s.workers, Testing(n));
        CountUpdate(s.workers, m.w, t.workers[m.w], Testing(n));
        CountAppend(s.taken, s.num, n);
        if s.workers[m.w].Testing? {
          CountAppend(s.tested, s.workers[m.w].i, n);
        }
      }
    }
  }

  lemma StepSound(c: Config, s: State, m: Move)
    requires Fair(c) && Sound(c, s)
    ensures Sound(c, Step(c, s, m))
    ensures s.num == -1 ==> Step(c, s, m).num == -1
    ensures s.taken <= Step(c, s, m).taken
  {
    hide Slot, Ending, Accounts;
    SlotKept(c, s, m);
    EndingKept(c, s, m);
    AccountsKept(c, s, m);
  }

  lemma {:induction false} RunSound(c: Config, moves: seq<Move>)
    requires Fair(c)
    ensures Sound(c, Run(c, moves))
    decreases |moves|
  {
    hide Sound, Step;
    if moves != [] {
      RunSound(c, moves[..|moves| - 1]);
      StepSound(c, Run(c, moves[..|moves| - 1]), moves[|moves| - 1]);
    } else {
      StartSound(c);
    }
  }

  lemma StartSound(c: Config)
    requires Fair(c)
    ensures Sound(c, Start(c))
  {
    forall n ensures Count(Start(c).workers, Testing(n)) == 0 {
      CountConstant(c.threads, Seeking, Testing(n));
    }
  }

  /** In every interleaving of any number of workers the numbers are taken in order, each once, none left
      out; when the -1 stands, all up to the last have been taken, and at most one number beyond it. */
  lemma TakenInOrder(c: Config, moves: seq<Move>)
    requires Fair(c)
    ensures var s := Run(c, moves);
            && s.taken == Numbers(c.min, |s.taken|) && |s.taken| <= c.max + 2 - c.min
            && (s.num == -1 ==> forall n :: c.min <= n <= c.max ==> n in s.taken)
  {
    RunSound(c, moves);
    var s := Run(c, moves);
    forall n | c.min <= n <= c.max && s.num == -1 ensures n in s.taken {
      assert s.taken[n - c.min] == n;
    }
  }

  /** The -1 is never overwritten. */
  lemma {:induction false} EndMarkStays(c: Config, moves: seq<Move>, k: nat)
    requires Fair(c) && k <= |moves| && Run(c, moves[..k]).num == -1
    ensures Run(c, moves).num == -1
    decreases |moves| - k
  {
    hide Sound, Step;
    if k == |moves| {
      assert moves[..k] == moves;
    } else {
      assert moves[..k + 1][..k] == moves[..k];
      RunSound(c, moves[..k]);
      StepSound(c, Run(c, moves[..k]), moves[k]);
      EndMarkStays(c, moves, k + 1);
    }
  }

  /** When the program exits, every number from the first to the last has been tested, each exactly once. */
  lemma AllTestedAtExit(c: Config, moves: seq<Move>)
    requires Fair(c) && Run(c, moves).main == Exited
    ensures forall n :: c.min <= n <= c.max ==> Count(Run(c, moves).tested, n) == 1
  {
    RunSound(c, moves);
    var s := Run(c, moves);
    CountZero(s.workers, Gone);
    forall n | c.min <= n <= c.max ensures Count(s.tested, n) == 1 {
      OnceInNumbers(c.min, |s.taken|, n);
      CountZero(s.workers, Testing(n));
      assert Count(s.taken, n) == Count(s.tested, n) + Count(s.workers, Testing(n));
    }
  }

  lemma {:induction false} OnceInNumbers(from: int, k: nat, n: int)
    ensures Count(Numbers(from, k), n) == if from <= n < from + k then 1 else 0
  {
    if k > 0 {
      OnceInNumbers(from, k - 1, n);
      CountAppend(Numbers(from, k - 1), from + k - 1, n);
    }
  }

  // ---------- progress ----------

  function Weight(w: Worker): nat {
    if w.Gone? then 0 else if w.Seeking? then 1 else 2
  }

  function WorkLeft(workers: seq<Worker>): nat {
    if workers == [] then 0 else WorkLeft(workers[..|workers| - 1]) + Weight(workers[|workers| - 1])
  }

  lemma {:induction false} WorkLeftUpdate(workers: seq<Worker>, w: nat, to: Worker)
    requires w < |workers|
    ensures WorkLeft(workers[w := to]) == WorkLeft(workers) - Weight(workers[w]) + Weight(to)
  {
    var last := |workers| - 1;
    if w < last {
      assert workers[w := to][..last] == workers[..last][w := to];
      WorkLeftUpdate(workers[..last], w, to);
    } else {
      assert workers[w := to][..last] == workers[..last];
    }
  }

  /** What is left to do. */
  function Left(c: Config, s: State): int {
    4 * (c.max + 1 - s.cnt) + (if s.num > 0 then 2 else 0) + (if s.num != -1 then 1 else 0)
    + WorkLeft(s.workers) + (if s.main == Exited then 0 else 1)
  }

  /** No move adds work: a move that finds nothing to do leaves the measure as it is. */
  lemma NoMoveAddsWork(c: Config, s: State, m: Move)
    requires Fair(c) && Sound(c, s)
    ensures 0 <= Left(c, Step(c, s, m)) <= Left(c, s)
  {
    hide Ending, Accounts, Numbers, WorkLeft;
    SlotKept(c, s, m);
    if m.WorkerMoves? && m.w < |s.workers| {
      WorkLeftUpdate(s.workers, m.w, WorkerStep(s, m.w).workers[m.w]);
    }
  }

  /** Nobody can be stuck: until the program exits there is a thread whose move does some of the work left,
      or the main thread does with its next move but one. */
  lemma NeverStuck(c: Config, s: State)
    requires Fair(c) && Sound(c, s) && s.main != Exited
    ensures (exists m :: Left(c, Step(c, s, m)) < Left(c, s))
         || Left(c, Step(c, Step(c, s, MainMoves), MainMoves)) < Left(c, s)
  {
    hide Left, Accounts, Numbers;
    CountZero(s.workers, Gone);
    if MainHasWork(s) {
      MainWorks(c, s);
    } else {
      var w: nat :| w < |s.workers| && s.workers[w] != Gone;
      WorkerWorks(c, s, w);
    }
  }

  ghost predicate MainHasWork(s: State) {
    s.num == 0 || s.main == Publishing || (s.main == Joining && Count(s.workers, Gone) == |s.workers|)
  }

  lemma MainWorks(c: Config, s: State)
    requires Fair(c) && Slot(c, s) && s.main != Exited && MainHasWork(s)
    ensures Left(c, Step(c, s, MainMoves)) < Left(c, s)
         || Left(c, Step(c, Step(c, s, MainMoves), MainMoves)) < Left(c, s)
  {
  }

  lemma WorkerWorks(c: Config, s: State, w: nat)
    requires w < |s.workers| && s.workers[w] != Gone && (s.num > 0 || s.num == -1)
    ensures Left(c, Step(c, s, WorkerMoves(w))) < Left(c, s)
  {
    WorkLeftUpdate(s.workers, w, WorkerStep(s, w).workers[w]);
  }
}
