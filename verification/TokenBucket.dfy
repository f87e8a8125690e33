/** The token bucket whose refill handler may interrupt a fetch or a return between any load and store.
    Counts are C ints, and their sums and differences wrap around. */
module TokenBucket {
  import opened Common

  /** Where the program is in `mytbf_fetchtoken` and `mytbf_returntoken`: `reg` is a token count loaded and
      not yet stored back. */
  datatype Pc =
    | Idle
    | FetchTest(size: Size)             // while (token <= 0) pause()
    | FetchMin(size: Size)              // n = min(token, size)
    | FetchLoad(n: Int)                  // token -= n, load
    | FetchStore(n: Int, reg: Int)       // token -= n, store
    | ReturnLoad(size: Size)            // token += size, load
    | ReturnStore(size: Size, reg: Int) // token += size, store
    | ReturnTest(size: Size)            // if (token > burst)
    | ReturnCap(size: Size)             // token = burst

  /** `ticks`, `fetched` and `returned` record what has happened; `ideal` is the count of a bucket that is
      given the same ticks, grants and returns without interruption and without wrapping around. */
  datatype Bucket = Bucket(
    cps: Int, burst: Int, token: Int, pc: Pc, ticks: nat, fetched: int, returned: int, ideal: int)

  datatype Move = Tick | Fetch(size: Int) | Return(size: Int) | Go

  /** What the handler makes of a count. */
  function Refill(b: Bucket): Int {
    Min(Wrap(b.token + b.cps), b.burst)
  }

  function Init(cps: Int, burst: Int): Bucket {
    Bucket(cps, burst, 0, Idle, 0, 0, 0, 0)
  }

  function Returned(b: Bucket, token: Int, size: Size): Bucket {
    b.(token := token, pc := Idle, returned := b.returned + size, ideal := Min(b.ideal + size, b.burst))
  }

  /** One step: a tick of the handler at any moment, a call when no other is running (a negative size is
      refused), or the next load, store or test of the call that is running. */
  function Step(b: Bucket, m: Move): Bucket {
    match m
    case Tick => b.(token := Refill(b), ticks := b.ticks + 1, ideal := Min(b.ideal + b.cps, b.burst))
    case Fetch(size) => if b.pc.Idle? && size >= 0 then b.(pc := FetchTest(size)) else b
    case Return(size) => if b.pc.Idle? && size >= 0 then b.(pc := ReturnLoad(size)) else b
    case Go =>
      match b.pc
      case Idle => b
      case FetchTest(size) => if b.token <= 0 then b else b.(pc := FetchMin(size))
      case FetchMin(size) => b.(pc := FetchLoad(Min(b.token, size)))
      case FetchLoad(n) => b.(pc := FetchStore(n, b.token))
      case FetchStore(n, reg) =>
        b.(token := Wrap(reg - n), pc := Idle, fetched := b.fetched + n, ideal := b.ideal - n)
      case ReturnLoad(size) => b.(pc := ReturnStore(size, b.token))
      case ReturnStore(size, reg) => b.(token := Wrap(reg + size), pc := ReturnTest(size))
      case ReturnTest(size) => if b.token > b.burst then b.(pc := ReturnCap(size)) else Returned(b, b.token, size)
      case ReturnCap(size) => Returned(b, b.burst, size)
  }

  function Run(b: Bucket, moves: seq<Move>): Bucket
    decreases |moves|
  {
    if moves == [] then b else Step(Run(b, moves[..|moves| - 1]), moves[|moves| - 1])
  }

  lemma RunStep(b: Bucket, moves: seq<Move>, m: Move)
    ensures Run(b, moves + [m]) == Step(Run(b, moves), m)
  {
    assert (moves + [m])[..|moves|] == moves;
    hide Step;
  }

  lemma {:induction false} RunJoin(b: Bucket, first: seq<Move>, second: seq<Move>)
    ensures Run(b, first + second) == Run(Run(b, first), second)
    decreases |second|
  {
    hide Step;
    if second == [] {
      assert first + second == first;
    } else {
      var init, m := second[..|second| - 1], second[|second| - 1];
      RunJoin(b, first, init);
      RunStep(b, first + init, m);
      assert first + init + [m] == first + second;
    }
  }

  lemma RunThree(b: Bucket, m1: Move, m2: Move, m3: Move)
    ensures Run(b, [m1, m2, m3]) == Step(Step(Step(b, m1), m2), m3)
  {
    hide Step, Run;
    RunOne(b, m1);
    RunStep(b, [m1], m2);
    RunStep(b, [m1] + [m2], m3);
    assert [m1] + [m2] + [m3] == [m1, m2, m3];
  }

  lemma RunTwo(b: Bucket, m1: Move, m2: Move)
    ensures Run(b, [m1, m2]) == Step(Step(b, m1), m2)
  {
    hide Step, Run;
    RunOne(b, m1);
    RunStep(b, [m1], m2);
    assert [m1] + [m2] == [m1, m2];
  }

  lemma RunOne(b: Bucket, m: Move)
    ensures Run(b, [m]) == Step(b, m)
  {
    RunStep(b, [], m);
    assert [] + [m] == [m];
  }

  function Net(b: Bucket): int {
    b.fetched - b.returned
  }

  // ---------- grants are earned ----------

  /** What the ticks have brought and the grants have not used up. */
  function Credit(b: Bucket): int {
    b.cps * b.ticks - Net(b)
  }

  /** A count read as unsigned. A sum that wraps around below zero reads as what it should have been. */
  function Unsigned(x: Int): nat {
    if x < 0 then x + TWO_32 else x
  }

  /** The credit covers the count. In a fetch the count was positive at the test, so a negative one has
      wrapped around, and is covered as what it should have been. */
  ghost predicate Earned(b: Bucket) {
    && b.cps >= 0 && b.burst >= 0 && Credit(b) >= 0
    && match b.pc
       case FetchMin(size) => Credit(b) >= Unsigned(b.token)
       case FetchLoad(n) => Credit(b) >= Unsigned(b.token) && Credit(b) >= n
       case FetchStore(n, reg) => Credit(b) >= Unsigned(reg) && Credit(b) >= n
       case ReturnStore(size, reg) => Credit(b) >= reg
       case ReturnTest(size) => Credit(b) + size >= b.token
       case ReturnCap(size) => Credit(b) + size >= b.burst
       case _ => Credit(b) >= b.token
  }

  lemma OneMoreTick(b: Bucket)
    ensures Credit(Step(b, Tick)) == Credit(b) + b.cps
  {
    assert b.cps * (b.ticks + 1) == b.cps * b.ticks + b.cps;
  }

  lemma TickEarned(b: Bucket)
    requires Earned(b)
    ensures Earned(Step(b, Tick))
  {
    hide Wrap;
    OneMoreTick(b);
    hide Credit;
  }

  lemma GoEarned(b: Bucket)
    requires Earned(b)
    ensures Earned(Step(b, Go))
  {
    hide Wrap;
  }

  lemma StepEarned(b: Bucket, m: Move)
    requires Earned(b)
    ensures Earned(Step(b, m))
  {
    match m
    case Tick => TickEarned(b);
    case Go => GoEarned(b);
    case _ =>
  }

  lemma StepKeepsShape(b: Bucket, m: Move)
    ensures Step(b, m).cps == b.cps && Step(b, m).burst == b.burst
    ensures Step(b, m).ticks == b.ticks + if m.Tick? then 1 else 0
    ensures m.Tick? ==> Net(Step(b, m)) == Net(b)
  {
  }

  lemma {:induction false} RunEarned(b: Bucket, moves: seq<Move>)
    requires Earned(b)
    ensures Earned(Run(b, moves))
    decreases |moves|
  {
    hide Earned, Step;
    if moves != [] {
      RunEarned(b, moves[..|moves| - 1]);
      StepEarned(Run(b, moves[..|moves| - 1]), moves[|moves| - 1]);
    }
  }

  lemma {:induction false} RunKeepsShape(b: Bucket, moves: seq<Move>)
    ensures var c := Run(b, moves); c.cps == b.cps && c.burst == b.burst && c.ticks >= b.ticks
    decreases |moves|
  {
    hide Step;
    if moves != [] {
      RunKeepsShape(b, moves[..|moves| - 1]);
      StepKeepsShape(Run(b, moves[..|moves| - 1]), moves[|moves| - 1]);
    }
  }

  predicate EarnedSoFar(cps: Int, burst: Int, moves: seq<Move>) {
    var b := Run(Init(cps, burst), moves);
    Net(b) <= cps * b.ticks
  }

  /** From the start the tokens fetched less those returned are covered by the ticks, in every run, if and only
      if the rate is not negative: no wrapping around of any sum creates a token. */
  lemma GrantsAreEarnedExactly(cps: Int, burst: Int)
    ensures (forall moves :: EarnedSoFar(cps, burst, moves)) <==> cps >= 0
  {
    hide Step, Run;
    var b := Init(cps, burst);
    if cps >= 0 {
      forall moves ensures EarnedSoFar(cps, burst, moves) {
        var c := Run(b, moves);
        RunKeepsShape(b, moves);
        if burst >= 0 {
          RunEarned(b, moves);
        } else {
          RunGainless(cps, burst, moves);
          assert cps * c.ticks >= 0;
        }
      }
    } else {
      RunOne(b, Tick);
      StepKeepsShape(b, Tick);
      assert !EarnedSoFar(cps, burst, [Tick]);
    }
  }

  // ---------- buckets that grant only what is returned ----------

  /** A count without its sign bit. */
  function Low(x: Int): nat {
    if x < 0 then x - INT_MIN else x
  }

  /** For a rate that does not reach below the sign bit: the tokens granted and those in the bucket, or in the
      register on its way there, sign bits aside, are covered by those returned. */
  ghost predicate Covered(b: Bucket) {
    && Net(b) <= 0
    && (!b.pc.ReturnTest? && !b.pc.ReturnCap? ==> b.token <= b.burst)
    && match b.pc
       case FetchMin(size) => Net(b) + Low(b.token) <= 0 && Low(b.token) <= b.burst
       case FetchLoad(n) =>
         && Net(b) + Low(b.token) <= 0 && Low(b.token) <= b.burst
         && if n >= 0 then n <= Low(b.token) else Low(n) == Low(b.token)
       case FetchStore(n, reg) =>
         && Net(b) + Low(reg) <= 0 && Low(reg) <= b.burst
         && if n >= 0 then n <= Low(reg) else Low(n) == Low(reg)
       case ReturnStore(size, reg) => Net(b) + Low(reg) <= 0
       case ReturnTest(size) => Net(b) + Low(b.token) - size <= 0
       case ReturnCap(size) => Net(b) + b.burst - size <= 0
       case _ => Net(b) + Low(b.token) <= 0
  }

  /** Without a positive burst: no fetch gets past its test. */
  ghost predicate NeverPasses(b: Bucket) {
    && Net(b) <= 0 && !b.pc.FetchMin? && !b.pc.FetchLoad? && !b.pc.FetchStore?
    && match b.pc
       case ReturnStore(size, reg) => reg <= 0 && b.token <= 0
       case ReturnTest(size) => true
       case ReturnCap(size) => true
       case _ => b.token <= 0
  }

  /** The parameters that bring no tokens. A rate of INT_MIN only turns the sign bit over. */
  predicate Barren(cps: Int, burst: Int) {
    burst <= 0 || cps == 0 || cps == INT_MIN
  }

  ghost predicate Gainless(b: Bucket) {
    if b.burst <= 0 then NeverPasses(b) else Barren(b.cps, b.burst) && Covered(b)
  }

  lemma LowAfter(x: Int, y: Int)
    ensures y >= 0 ==> Low(Wrap(x + y)) <= Low(x) + y
    ensures 0 <= y <= Low(x) ==> Low(Wrap(x - y)) == Low(x) - y && Wrap(x - y) <= Low(x)
    ensures y < 0 && Low(x) == Low(y) ==> Wrap(x - y) <= 0 && Low(Wrap(x - y)) == 0
    ensures y == 0 || y == INT_MIN ==> Low(Wrap(x + y)) == Low(x)
  {
    hide Wrap;
  }

  lemma TickCovered(b: Bucket)
    requires b.burst > 0 && Barren(b.cps, b.burst) && Covered(b)
    ensures Covered(Step(b, Tick))
  {
    hide Wrap;
    LowAfter(b.token, b.cps);
    assert Net(Step(b, Tick)) == Net(b);
  }

  lemma GoCovered(b: Bucket)
    requires b.burst > 0 && Covered(b)
    ensures Covered(Step(b, Go))
  {
    hide Wrap;
    match b.pc {
      case FetchStore(n, reg) => LowAfter(reg, n);
      case ReturnStore(size, reg) => LowAfter(reg, size);
      case _ =>
    }
  }

  lemma StepNeverPasses(b: Bucket, m: Move)
    requires b.burst <= 0 && NeverPasses(b)
    ensures NeverPasses(Step(b, m))
  {
    hide Wrap;
  }

  lemma StepGainless(b: Bucket, m: Move)
    requires Gainless(b)
    ensures Gainless(Step(b, m))
  {
    if b.burst <= 0 {
      StepNeverPasses(b, m);
    } else {
      match m
      case Tick => TickCovered(b);
      case Go => GoCovered(b);
      case _ =>
    }
  }

  lemma {:induction false} RunGainless(cps: Int, burst: Int, moves: seq<Move>)
    requires Barren(cps, burst)
    ensures Gainless(Run(Init(cps, burst), moves)) && Net(Run(Init(cps, burst), moves)) <= 0
    decreases |moves|
  {
    if moves != [] {
      hide Step;
      RunGainless(cps, burst, moves[..|moves| - 1]);
      StepGainless(Run(Init(cps, burst), moves[..|moves| - 1]), moves[|moves| - 1]);
    }
  }

  /** A bucket grants no more than is returned, in any run, if and only if its parameters are barren. */
  lemma GrantsOnlyReturnsExactly(cps: Int, burst: Int)
    ensures (forall moves :: Net(Run(Init(cps, burst), moves)) <= 0) <==> Barren(cps, burst)
  {
    hide Run, Net;
    if Barren(cps, burst) {
      forall moves ensures Net(Run(Init(cps, burst), moves)) <= 0 {
        RunGainless(cps, burst, moves);
      }
    } else {
      var moves := OneFetch(cps, burst);
      assert Net(Run(Init(cps, burst), moves)) > 0;
    }
  }

  predicate NoReturns(moves: seq<Move>) {
    forall m :: m in moves ==> !m.Return?
  }

  predicate GivesNone(cps: Int, burst: Int, moves: seq<Move>) {
    var b := Run(Init(cps, burst), moves);
    NoReturns(moves) ==> b.token <= 0 && b.fetched == 0
  }

  /** Without returns no token is ever seen, let alone granted, if and only if the same holds. */
  lemma NoTokensExactly(cps: Int, burst: Int)
    ensures (forall moves :: GivesNone(cps, burst, moves)) <==> Barren(cps, burst)
  {
    hide Run, Step;
    if Barren(cps, burst) {
      forall moves ensures GivesNone(cps, burst, moves) {
        if NoReturns(moves) {
          RunDry(cps, burst, moves);
        }
      }
    } else {
      var moves := OneFetch(cps, burst);
      assert !GivesNone(cps, burst, moves);
    }
  }

  ghost predicate Dry(b: Bucket) {
    && b.fetched == 0 && b.returned == 0 && (b.pc.Idle? || b.pc.FetchTest?) && Barren(b.cps, b.burst)
    && b.token <= 0 && (b.burst <= 0 || b.token == 0 || b.token == INT_MIN)
    && (b.burst > 0 && b.token == INT_MIN ==> b.cps == INT_MIN)
  }

  lemma {:induction false} RunDry(cps: Int, burst: Int, moves: seq<Move>)
    requires Barren(cps, burst) && NoReturns(moves)
    ensures Dry(Run(Init(cps, burst), moves))
    decreases |moves|
  {
    hide Wrap;
    if moves != [] {
      assert moves[|moves| - 1] in moves;
      RunDry(cps, burst, moves[..|moves| - 1]);
    }
  }

  // ---------- waiting ----------

  /** A bucket after some ticks. */
  function Ticks(b: Bucket, n: nat): Bucket {
    if n == 0 then b else Step(Ticks(b, n - 1), Tick)
  }

  /** The buckets whose count gets above zero by ticks alone; with a negative rate by wrapping around. */
  predicate Wakes(b: Bucket) {
    || b.token > 0
    || (b.burst > 0 && b.cps != 0 && !(b.cps == INT_MIN && (b.token == 0 || b.token == INT_MIN)))
  }

  /** A fetch that waits is let through by some number of ticks if and only if the bucket wakes; otherwise it
      waits for ever. */
  lemma WaitEndsExactly(b: Bucket)
    ensures (exists n: nat :: Ticks(b, n).token > 0) <==> Wakes(b)
  {
    if Wakes(b) {
      var n := FirstToken(b);
      assert Ticks(b, n).token > 0;
    } else {
      forall n: nat ensures Ticks(b, n).token <= 0 {
        NeverWakes(b, n);
      }
    }
  }

  lemma {:induction false} TicksLater(b: Bucket, n: nat)
    ensures Ticks(b, n + 1) == Ticks(Step(b, Tick), n)
  {
    hide Step;
    if n > 0 {
      TicksLater(b, n - 1);
    }
  }

  lemma {:induction false} FirstToken(b: Bucket) returns (n: nat)
    requires Wakes(b)
    ensures Ticks(b, n).token > 0
    decreases if b.token > 0 then 0 else if b.cps > 0 then 1 - b.token else 1 + b.token - INT_MIN
  {
    if b.token > 0 {
      return 0;
    }
    hide Wrap;
    var next := Step(b, Tick);
    n := FirstToken(next);
    hide Step;
    TicksLater(b, n);
    n := n + 1;
  }

  lemma {:induction false} NeverWakes(b: Bucket, n: nat)
    requires !Wakes(b)
    ensures var c := Ticks(b, n); !Wakes(c) && c.cps == b.cps && c.burst == b.burst
    decreases n
  {
    hide Wrap;
    if n > 0 {
      NeverWakes(b, n - 1);
    }
  }

  lemma {:induction false} RunTicks(b: Bucket, n: nat) returns (moves: seq<Move>)
    ensures Run(b, moves) == Ticks(b, n) && NoReturns(moves)
  {
    hide Step;
    if n == 0 {
      return [];
    }
    var most := RunTicks(b, n - 1);
    RunStep(b, most, Tick);
    moves := most + [Tick];
  }

  lemma {:induction false} TicksOnly(b: Bucket, n: nat)
    ensures Ticks(b, n).pc == b.pc && Net(Ticks(b, n)) == Net(b) && Ticks(b, n).fetched == b.fetched
  {
    hide Wrap;
    if n > 0 {
      TicksOnly(b, n - 1);
    }
  }

  /** Ticks until there is a token, and a fetch of one. */
  lemma OneFetch(cps: Int, burst: Int) returns (moves: seq<Move>)
    requires !Barren(cps, burst)
    ensures NoReturns(moves) && Net(Run(Init(cps, burst), moves)) == 1 && Run(Init(cps, burst), moves).fetched == 1
  {
    var b := Init(cps, burst);
    var n := FirstToken(b);
    var c := Ticks(b, n);
    TicksOnly(b, n);
    var wait := RunTicks(b, n);
    var fetch := FetchWhole(c, 1);
    hide Run, Step;
    RunJoin(b, wait, fetch);
    moves := wait + fetch;
  }

  /** A fetch without interruption. */
  lemma FetchWhole(b: Bucket, size: Size) returns (moves: seq<Move>)
    requires b.pc.Idle? && b.token > 0
    ensures NoReturns(moves)
    ensures var n, c := Min(b.token, size), Run(b, moves);
            && c.token == b.token - n && c.pc.Idle?
            && c.fetched == b.fetched + n && c.returned == b.returned && c.ticks == b.ticks
  {
    hide Wrap;
    RunThree(b, Fetch(size), Go, Go);
    var mid := Run(b, [Fetch(size), Go, Go]);
    assert mid == b.(pc := FetchLoad(Min(b.token, size)));
    RunTwo(mid, Go, Go);
    hide Run;
    RunJoin(b, [Fetch(size), Go, Go], [Go, Go]);
    moves := [Fetch(size), Go, Go] + [Go, Go];
  }

  // ---------- windows ----------

  /** Tokens a fetch could take now; while a return is between its store and its end, those without it. */
  function Usable(b: Bucket): nat {
    match b.pc
    case ReturnTest(size) => Max(0, b.token - size)
    case ReturnCap(size) => Max(0, b.burst - size)
    case _ => Max(0, b.token)
  }

  /** Tokens granted and usable beyond what the ticks have brought. */
  function Excess(b: Bucket): int {
    Net(b) + Usable(b) - b.cps * b.ticks
  }

  /** The parameters for which no tick of a count within the burst wraps around. */
  predicate Roomy(cps: Int, burst: Int) {
    cps >= 0 && burst >= 0 && cps + burst <= INT_MAX
  }

  /** A register never holds more than memory, so storing it back can only lose tokens. */
  ghost predicate Sound(b: Bucket) {
    && Roomy(b.cps, b.burst)
    && (!b.pc.ReturnTest? && !b.pc.ReturnCap? ==> b.token <= b.burst)
    && Usable(b) <= b.ideal <= b.burst
    && match b.pc
       case FetchMin(size) => b.token > 0
       case FetchLoad(n) => 0 <= n <= b.token
       case FetchStore(n, reg) => 0 <= n <= reg <= b.token
       case ReturnStore(size, reg) => reg <= b.token
       case _ => true
  }

  lemma TickSound(b: Bucket)
    requires Sound(b)
    ensures Sound(Step(b, Tick)) && Excess(Step(b, Tick)) <= Excess(b)
  {
    TickKeepsSound(b);
    TickExcess(b);
  }

  lemma TickKeepsSound(b: Bucket)
    requires Sound(b)
    ensures Sound(Step(b, Tick)) && Usable(Step(b, Tick)) <= Usable(b) + b.cps
  {
    hide Wrap, Min, Max;
  }

  lemma TickExcess(b: Bucket)
    requires Usable(Step(b, Tick)) <= Usable(b) + b.cps
    ensures Excess(Step(b, Tick)) <= Excess(b)
  {
    hide Usable, Refill, Min;
    assert b.cps * (b.ticks + 1) == b.cps * b.ticks + b.cps;
  }

  lemma GoSound(b: Bucket)
    requires Sound(b)
    ensures Sound(Step(b, Go)) && Excess(Step(b, Go)) <= Excess(b)
  {
    hide Wrap;
  }

  /** Every step keeps the bucket sound and never raises the excess, whatever the handler interrupts and
      however much is returned. */
  lemma StepSound(b: Bucket, m: Move)
    requires Sound(b)
    ensures Sound(Step(b, m)) && Excess(Step(b, m)) <= Excess(b)
  {
    match m
    case Tick => TickSound(b);
    case Go => GoSound(b);
    case _ =>
  }

  lemma {:induction false} RunSound(b: Bucket, moves: seq<Move>)
    requires Sound(b)
    ensures Sound(Run(b, moves)) && Excess(Run(b, moves)) <= Excess(b)
    decreases |moves|
  {
    hide Sound, Excess, Step;
    if moves != [] {
      RunSound(b, moves[..|moves| - 1]);
      StepSound(Run(b, moves[..|moves| - 1]), moves[|moves| - 1]);
    }
  }

  /** The promise of the bucket: from any moment of a run to any later one, the tokens fetched less those
      returned are at most the burst and what the ticks in between bring. */
  predicate Limited(cps: Int, burst: Int, before: seq<Move>, window: seq<Move>) {
    var b := Run(Init(cps, burst), before);
    var c := Run(b, window);
    Net(c) - Net(b) <= burst + cps * (c.ticks - b.ticks)
  }

  /** It is kept in every window of every run if and only if the parameters are not negative and their sum is
      an int. Otherwise a tick between the test and the store of a fetch makes the subtraction wrap around
      and leaves tokens that were never brought. */
  lemma WindowBoundExactly(cps: Int, burst: Int)
    ensures (forall before, window :: Limited(cps, burst, before, window)) <==> Roomy(cps, burst)
  {
    hide Run, Step;
    if Roomy(cps, burst) {
      forall before, window ensures Limited(cps, burst, before, window) {
        WindowHolds(cps, burst, before, window);
      }
    } else {
      var before, window := WindowBreaks(cps, burst);
      assert !Limited(cps, burst, before, window);
    }
  }

  lemma WindowHolds(cps: Int, burst: Int, before: seq<Move>, window: seq<Move>)
    requires Roomy(cps, burst)
    ensures Limited(cps, burst, before, window)
  {
    hide Step, Run;
    var b := Run(Init(cps, burst), before);
    var c := Run(b, window);
    RunSound(Init(cps, burst), before);
    RunSound(b, window);
    RunKeepsShape(Init(cps, burst), before);
    RunKeepsShape(b, window);
    assert cps * (c.ticks - b.ticks) == cps * c.ticks - cps * b.ticks;
  }

  lemma WindowBreaks(cps: Int, burst: Int) returns (before: seq<Move>, window: seq<Move>)
    requires !Roomy(cps, burst)
    ensures !Limited(cps, burst, before, window)
  {
    hide Run, Step, Ticks;
    var b := Init(cps, burst);
    if burst < 0 {
      RunNothing(b);
      return [], [];
    }
    if cps < 0 {
      RunNothing(b);
      var n := burst + 1;
      var ticks := RunTicks(b, n);
      TicksOnly(b, n);
      TicksCount(b, n);
      assert cps * n <= -n;
      return [], ticks;
    }
    before := FetchWrapped(cps, burst);
    var c := Run(b, before);
    RunTwo(c, Go, Go);
    var d := Run(c, [Go, Go]);
    assert d == c.(token := cps, pc := Idle, fetched := c.fetched + burst, ideal := c.ideal - burst) by {
      StoreWrapped(c);
    }
    var fetch := FetchWhole(d, burst);
    RunJoin(c, [Go, Go], fetch);
    window := [Go, Go] + fetch;
  }

  lemma RunNothing(b: Bucket)
    ensures Run(b, []) == b
  {
  }

  lemma {:induction false} TicksCount(b: Bucket, n: nat)
    ensures Ticks(b, n).ticks == b.ticks + n
  {
    hide Wrap;
    if n > 0 {
      TicksCount(b, n - 1);
    }
  }

  /** A full bucket and a fetch of all of it, with a tick just before the count is loaded for the subtraction. */
  lemma FetchWrapped(cps: Int, burst: Int) returns (moves: seq<Move>)
    requires cps >= 0 && burst >= 0 && cps + burst > INT_MAX
    ensures Run(Init(cps, burst), moves)
         == Bucket(cps, burst, cps + burst - TWO_32, FetchLoad(burst), 1, 0, burst, burst)
  {
    hide Wrap;
    var b := Init(cps, burst);
    RunThree(b, Return(burst), Go, Go);
    var c := Run(b, [Return(burst), Go, Go]);
    assert c == b.(token := burst, pc := ReturnTest(burst));
    RunThree(c, Go, Fetch(burst), Go);
    var d := Run(c, [Go, Fetch(burst), Go]);
    assert d == Bucket(cps, burst, burst, FetchMin(burst), 0, 0, burst, burst);
    RunTwo(d, Go, Tick);
    hide Run;
    RunJoin(b, [Return(burst), Go, Go], [Go, Fetch(burst), Go]);
    RunJoin(b, [Return(burst), Go, Go] + [Go, Fetch(burst), Go], [Go, Tick]);
    moves := [Return(burst), Go, Go] + [Go, Fetch(burst), Go] + [Go, Tick];
  }

  lemma StoreWrapped(c: Bucket)
    requires c.pc == FetchLoad(c.burst) && c.burst >= 0 && c.cps >= 0 && c.token == c.cps + c.burst - TWO_32
    ensures Step(Step(c, Go), Go)
         == c.(token := c.cps, pc := Idle, fetched := c.fetched + c.burst, ideal := c.ideal - c.burst)
  {
    hide Wrap;
  }

  predicate NoBetter(cps: Int, burst: Int, moves: seq<Move>) {
    var b := Run(Init(cps, burst), moves);
    Usable(b) <= b.ideal
  }

  /** Updates lost to interruption only lower the grants, also if and only if no tick can wrap around: never
      more tokens are usable than in a bucket that got the same ticks, grants and returns one after another. */
  lemma NoBetterThanIdealExactly(cps: Int, burst: Int)
    ensures (forall moves :: NoBetter(cps, burst, moves)) <==> Roomy(cps, burst)
  {
    hide Run, Step;
    if Roomy(cps, burst) {
      forall moves ensures NoBetter(cps, burst, moves) {
        RunSound(Init(cps, burst), moves);
      }
    } else {
      var moves := BetterThanIdeal(cps, burst);
      assert !NoBetter(cps, burst, moves);
    }
  }

  lemma BetterThanIdeal(cps: Int, burst: Int) returns (moves: seq<Move>)
    requires !Roomy(cps, burst)
    ensures !NoBetter(cps, burst, moves)
  {
    hide Run, Wrap;
    var b := Init(cps, burst);
    if cps < 0 || burst < 0 {
      RunOne(b, Tick);
      return [Tick];
    }
    var before := FetchWrapped(cps, burst);
    var c := Run(b, before);
    RunTwo(c, Go, Go);
    StoreWrapped(c);
    hide Step;
    RunJoin(b, before, [Go, Go]);
    moves := before + [Go, Go];
  }

  // ---------- counts that stay above zero ----------

  /** No return is of more than `most` tokens. */
  predicate Within(moves: seq<Move>, most: Size) {
    forall m :: m in moves && m.Return? ==> m.size <= most
  }

  ghost predicate AboveZero(b: Bucket, most: Size) {
    && Sound(b) && b.burst + b.cps + most <= INT_MAX && b.token >= 0
    && match b.pc
       case ReturnLoad(size) => size <= most
       case ReturnStore(size, reg) => size <= most && reg >= 0
       case ReturnTest(size) => size <= most && b.token <= b.burst + size
       case ReturnCap(size) => size <= most && b.token <= b.burst + size
       case _ => true
  }

  lemma StepAboveZero(b: Bucket, m: Move, most: Size)
    requires AboveZero(b, most) && (m.Return? ==> m.size <= most)
    ensures AboveZero(Step(b, m), most)
  {
    hide Wrap, Sound;
    StepSound(b, m);
    SoundFacts(b);
  }

  lemma SoundFacts(b: Bucket)
    requires Sound(b)
    ensures Roomy(b.cps, b.burst) && (!b.pc.ReturnTest? && !b.pc.ReturnCap? ==> b.token <= b.burst)
    ensures b.pc.FetchStore? ==> 0 <= b.pc.n <= b.pc.reg
    ensures b.pc.ReturnStore? ==> b.pc.reg <= b.token
  {
  }

  lemma {:induction false} RunAboveZero(cps: Int, burst: Int, most: Size, moves: seq<Move>)
    requires Roomy(cps, burst) && burst + cps + most <= INT_MAX && Within(moves, most)
    ensures AboveZero(Run(Init(cps, burst), moves), most)
    decreases |moves|
  {
    hide Step;
    if moves != [] {
      assert moves[|moves| - 1] in moves;
      RunAboveZero(cps, burst, most, moves[..|moves| - 1]);
      hide AboveZero;
      StepAboveZero(Run(Init(cps, burst), moves[..|moves| - 1]), moves[|moves| - 1], most);
    }
  }

  predicate NotNegative(cps: Int, burst: Int, most: Size, moves: seq<Move>) {
    Within(moves, most) ==> Run(Init(cps, burst), moves).token >= 0
  }

  /** The count is never negative, in any run that returns at most `most` tokens at a time, if and only if
      neither parameter is and a full bucket has room for a return and a tick. */
  lemma NeverNegativeExactly(cps: Int, burst: Int, most: Size)
    ensures (forall moves :: NotNegative(cps, burst, most, moves))
            <==> cps >= 0 && burst >= 0 && burst + cps + most <= INT_MAX
  {
    hide Run, Step;
    if cps >= 0 && burst >= 0 && burst + cps + most <= INT_MAX {
      forall moves ensures NotNegative(cps, burst, most, moves) {
        if Within(moves, most) {
          RunAboveZero(cps, burst, most, moves);
        }
      }
    } else {
      var moves := GetsNegative(cps, burst, most);
      assert !NotNegative(cps, burst, most, moves);
    }
  }

  lemma GetsNegative(cps: Int, burst: Int, most: Size) returns (moves: seq<Move>)
    requires !(cps >= 0 && burst >= 0 && burst + cps + most <= INT_MAX)
    ensures !NotNegative(cps, burst, most, moves)
  {
    hide Run, Wrap;
    var b := Init(cps, burst);
    if cps < 0 || burst < 0 {
      RunOne(b, Tick);
      return [Tick];
    }
    moves := Fill(b, most);
    var c := Run(b, moves);
    if c.token >= 0 {
      var last := Overflow(c, most);
      hide Step;
      RunJoin(b, moves, last);
      moves := moves + last;
    }
  }

  /** Ticks, or returns if there is no rate, until the bucket is full or the count has wrapped around. */
  lemma {:induction false} Fill(b: Bucket, most: Size) returns (moves: seq<Move>)
    requires b.pc.Idle? && b.cps >= 0 && 0 <= b.token <= b.burst && (b.cps > 0 || most > 0)
    ensures Within(moves, most)
    ensures var c := Run(b, moves);
            c.cps == b.cps && c.burst == b.burst && (c.token < 0 || (c.token == b.burst && c.pc.Idle?))
    decreases b.burst - b.token
  {
    RunNothing(b);
    hide Run, Wrap;
    if b.token == b.burst {
      return [];
    }
    moves := FillMore(b, most);
    var c := Run(b, moves);
    if c.token >= 0 {
      var rest := Fill(c, most);
      hide Step;
      RunJoin(b, moves, rest);
      moves := moves + rest;
    }
  }

  lemma FillMore(b: Bucket, most: Size) returns (moves: seq<Move>)
    requires b.pc.Idle? && b.cps >= 0 && 0 <= b.token < b.burst && (b.cps > 0 || most > 0)
    ensures Within(moves, most)
    ensures var c := Run(b, moves);
            && c.cps == b.cps && c.burst == b.burst
            && (c.token < 0 || (b.token < c.token <= b.burst && c.pc.Idle?))
  {
    hide Run, Wrap;
    if b.cps > 0 {
      RunOne(b, Tick);
      return [Tick];
    }
    RunThree(b, Return(most), Go, Go);
    var c := Run(b, [Return(most), Go, Go]);
    assert c == b.(token := Wrap(b.token + most), pc := ReturnTest(most));
    if c.token < 0 {
      return [Return(most), Go, Go];
    }
    RunTwo(c, Go, Go);
    RunJoin(b, [Return(most), Go, Go], [Go, Go]);
    moves := [Return(most), Go, Go] + [Go, Go];
  }

  lemma Overflow(b: Bucket, most: Size) returns (moves: seq<Move>)
    requires b.pc.Idle? && b.cps >= 0 && 0 <= b.token == b.burst && b.burst + b.cps + most > INT_MAX
    ensures Within(moves, most) && Run(b, moves).token < 0
  {
    hide Run, Wrap;
    RunThree(b, Return(most), Go, Go);
    var c := Run(b, [Return(most), Go, Go]);
    assert c == b.(token := Wrap(b.token + most), pc := ReturnTest(most));
    if c.token < 0 {
      return [Return(most), Go, Go];
    }
    RunOne(c, Tick);
    RunJoin(b, [Return(most), Go, Go], [Tick]);
    moves := [Return(most), Go, Go] + [Tick];
  }
}
