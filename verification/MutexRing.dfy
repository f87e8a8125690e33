/** The ring of mutexes that makes threads write their letters in turn. */
module MutexRing {
  import opened Common

  datatype ThreadPc = AtLock | AtWrite | AtUnlock

  /** The main thread initialises, locks and creates in a loop, then unlocks the first mutex. */
  datatype MainPc = Initialising(i: nat) | Locking(i: nat) | Creating(i: nat) | Opening | Waiting

  /** `threads` are those created so far; `output` holds the thread numbers written. */
  datatype State = State(locked: seq<bool>, threads: seq<ThreadPc>, main: MainPc, output: seq<nat>)

  datatype Move = MainMoves | ThreadMoves(t: nat)

  function Start(n: nat): State {
    State(seq(n, _ => false), [], if n > 0 then Initialising(0) else Opening, [])
  }

  /** `next` */
  function Next(a: nat, n: nat): nat {
    if a + 1 == n then 0 else a + 1
  }

  function MainMove(s: State): Option<State> {
    match s.main
    case Initialising(i) =>
      if i < |s.locked| then Some(s.(locked := s.locked[i := false], main := Locking(i))) else None
    case Locking(i) =>
      if i < |s.locked| && !s.locked[i] then Some(s.(locked := s.locked[i := true], main := Creating(i))) else None
    case Creating(i) =>
      Some(s.(threads := s.threads + [AtLock], main := if i + 1 < |s.locked| then Initialising(i + 1) else Opening))
    case Opening => if |s.locked| > 0 then Some(s.(locked := s.locked[0 := false], main := Waiting)) else None
    case Waiting => None
  }

  /** A thread's next move; None while its mutex is locked. */
  function ThreadMove(s: State, t: nat): Option<State>
    requires t < |s.threads| <= |s.locked|
  {
    match s.threads[t]
    case AtLock =>
      if s.locked[t] then None else Some(s.(locked := s.locked[t := true], threads := s.threads[t := AtWrite]))
    case AtWrite => Some(s.(output := s.output + [t], threads := s.threads[t := AtUnlock]))
    case AtUnlock =>
      Some(s.(locked := s.locked[Next(t, |s.locked|) := false], threads := s.threads[t := AtLock]))
  }

  function Apply(s: State, m: Move): Option<State> {
    match m
    case MainMoves => MainMove(s)
    case ThreadMoves(t) => if t < |s.threads| <= |s.locked| then ThreadMove(s, t) else None
  }

  /** The state after a sequence of moves; a blocked move changes nothing. */
  function Run(n: nat, moves: seq<Move>): State
    decreases |moves|
  {
    if moves == [] then Start(n)
    else
      var s := Run(n, moves[..|moves| - 1]);
      match Apply(s, moves[|moves| - 1])
      case Some(t) => t
      case None => s
  }

  // ---------- one token ----------

  /** The cyclic sequence: first thread 0, then after each thread the next of the ring. */
  ghost predicate Cyclic(output: seq<nat>, n: nat) {
    forall j :: 0 <= j < |output| ==> output[j] == Upcoming(output[..j], n)
  }

  /** Whose letter comes after `output`. */
  function Upcoming(output: seq<nat>, n: nat): nat {
    if output == [] then 0 else Next(output[|output| - 1], n)
  }

  ghost predicate AllLockedBut(s: State, k: int) {
    forall j :: 0 <= j < |s.locked| && j != k ==> s.locked[j]
  }

  ghost predicate AllAtLockBut(s: State, k: int) {
    forall t :: 0 <= t < |s.threads| && t != k ==> s.threads[t] == AtLock
  }

  /** The token is the unlocked mutex `k`. */
  ghost predicate TokenFree(s: State, k: nat) {
    k < |s.locked| && !s.locked[k] && AllLockedBut(s, k) && AllAtLockBut(s, -1)
  }

  /** The token is with thread `k`, which is at `pc` between its lock and its unlock. */
  ghost predicate TokenWith(s: State, k: nat, pc: ThreadPc) {
    k < |s.threads| && s.threads[k] == pc && AllLockedBut(s, -1) && AllAtLockBut(s, k)
  }

  /** Exactly one token, and it is where the next letter is to be written or the last has been. */
  ghost predicate OneToken(s: State) {
    var k := Upcoming(s.output, |s.locked|);
    TokenFree(s, k) || TokenWith(s, k, AtWrite)
    || (s.output != [] && TokenWith(s, s.output[|s.output| - 1], AtUnlock))
  }

  ghost predicate Starting(s: State, i: nat) {
    && |s.threads| == i <= |s.locked| && s.output == []
    && forall j :: 0 <= j < i ==> s.locked[j] && s.threads[j] == AtLock
  }

  ghost predicate Sound(n: nat, s: State) {
    && |s.locked| == n > 0 && Cyclic(s.output, n)
    && match s.main
       case Initialising(i) => i < n && Starting(s, i)
       case Locking(i) => i < n && Starting(s, i) && !s.locked[i]
       case Creating(i) => i < n && Starting(s, i) && s.locked[i]
       case Opening => Starting(s, n)
       case Waiting => |s.threads| == n && OneToken(s)
  }

  lemma CyclicGrows(output: seq<nat>, n: nat)
    requires Cyclic(output, n)
    ensures Cyclic(output + [Upcoming(output, n)], n)
  {
    var more := output + [Upcoming(output, n)];
    forall j | 0 <= j < |more| ensures more[j] == Upcoming(more[..j], n) {
      assert more[..j] == output[..j];
      assert output[..|output|] == output;
    }
  }

  lemma MainSound(n: nat, s: State)
    requires Sound(n, s) && MainMove(s).Some?
    ensures Sound(n, MainMove(s).value)
  {
    hide Cyclic;
  }

  lemma ThreadSound(n: nat, s: State, t: nat)
    requires Sound(n, s) && t < |s.threads| && ThreadMove(s, t).Some?
    ensures Sound(n, ThreadMove(s, t).value)
  {
    hide Cyclic;
    if s.main == Waiting {
      CyclicGrows(s.output, n);
      var u := ThreadMove(s, t).value;
      if s.threads[t] == AtLock {
        assert TokenWith(u, t, AtWrite);
      } else if s.threads[t] == AtWrite {
        assert TokenWith(u, t, AtUnlock);
      } else {
        assert TokenFree(u, Next(t, n));
      }
    }
  }

  lemma {:induction false} RunSound(n: nat, moves: seq<Move>)
    requires n > 0
    ensures Sound(n, Run(n, moves))
    decreases |moves|
  {
    hide Sound, MainMove, ThreadMove;
    if moves != [] {
      var s, m := Run(n, moves[..|moves| - 1]), moves[|moves| - 1];
      RunSound(n, moves[..|moves| - 1]);
      if Apply(s, m).Some? {
        match m
        case MainMoves => MainSound(n, s);
        case ThreadMoves(t) => ThreadSound(n, s, t);
      }
    } else {
      StartSound(n);
    }
  }

  lemma StartSound(n: nat)
    requires n > 0
    ensures Sound(n, Start(n))
  {
  }

  // ---------- what a reader of the output sees ----------

  lemma RemainderIs(x: int, n: int, q: int, r: int)
    requires n > 0 && 0 <= r < n && x == n * q + r
    ensures x % n == r
  {
    var d := q - x / n;
    assert n * d == x % n - r by {
      assert n * q - n * (x / n) == n * d;
    }
    assert d >= 1 ==> n * d >= n * 1;
    assert d <= -1 ==> n * d <= n * -1;
  }

  lemma {:induction false} LetterIs(output: seq<nat>, n: nat, j: nat)
    requires n > 0 && Cyclic(output, n) && j < |output|
    ensures output[j] == j % n
    decreases j
  {
    assert output[j] == Upcoming(output[..j], n);
    if j > 0 {
      LetterIs(output, n, j - 1);
      assert j == n * ((j - 1) / n) + (j - 1) % n + 1;
      if (j - 1) % n + 1 == n {
        assert n * ((j - 1) / n) + n == n * ((j - 1) / n + 1);
        RemainderIs(j, n, (j - 1) / n + 1, 0);
      } else {
        RemainderIs(j, n, (j - 1) / n, (j - 1) % n + 1);
      }
    }
  }

  /** In every interleaving of a ring of any size the output is the cyclic sequence of letters so far. */
  lemma LettersInTurn(n: nat, moves: seq<Move>)
    requires n > 0
    ensures var output := Run(n, moves).output; forall j :: 0 <= j < |output| ==> output[j] == j % n
  {
    RunSound(n, moves);
    var output := Run(n, moves).output;
    forall j | 0 <= j < |output| ensures output[j] == j % n {
      LetterIs(output, n, j);
    }
  }

  /** Until the main thread has opened the ring only it can move, and it can; from then on exactly one
      thread can. */
  lemma ExactlyOneCanMove(n: nat, moves: seq<Move>)
    requires n > 0
    ensures var s := Run(n, moves);
            exists m :: Apply(s, m).Some? && forall o :: Apply(s, o).Some? ==> SameMove(o, m)
  {
    RunSound(n, moves);
    OneCanMove(n, Run(n, moves));
  }

  ghost predicate SameMove(o: Move, m: Move) {
    o == m
  }

  lemma OneCanMove(n: nat, s: State)
    requires Sound(n, s)
    ensures exists m :: Apply(s, m).Some? && forall o :: Apply(s, o).Some? ==> SameMove(o, m)
  {
    hide Cyclic;
    var m := if s.main != Waiting then MainMoves else ThreadMoves(Holder(s));
    if s.main == Waiting {
      HolderCanMove(n, s);
    }
    assert Apply(s, m).Some?;
    forall o | Apply(s, o).Some? ensures SameMove(o, m) {
      if o.ThreadMoves? && s.main == Waiting {
        OthersCannot(n, s, o.t);
      }
    }
  }

  /** The thread that can move. */
  function Holder(s: State): nat {
    if s.output != [] && s.output[|s.output| - 1] < |s.threads| && s.threads[s.output[|s.output| - 1]] == AtUnlock
    then s.output[|s.output| - 1] else Upcoming(s.output, |s.locked|)
  }

  lemma HolderCanMove(n: nat, s: State)
    requires Sound(n, s) && s.main == Waiting
    ensures Holder(s) < n && ThreadMove(s, Holder(s)).Some?
  {
    hide Cyclic;
  }

  lemma OthersCannot(n: nat, s: State, t: nat)
    requires Sound(n, s) && s.main == Waiting && t < n && ThreadMove(s, t).Some?
    ensures t == Holder(s)
  {
    hide Cyclic;
  }

  /** How far the ring has got: three moves for each letter. */
  function Progress(s: State): int {
    var h := Holder(s);
    3 * |s.output| + if h >= |s.threads| || s.threads[h] == AtLock then 0 else if s.threads[h] == AtWrite then 1 else -1
  }

  /** Every move of the open ring brings the next letter nearer: after 3k of them there are k more letters. */
  lemma EveryMoveIsProgress(n: nat, s: State, m: Move)
    requires Sound(n, s) && s.main == Waiting && Apply(s, m).Some?
    ensures Apply(s, m).value.main == Waiting && Progress(Apply(s, m).value) == Progress(s) + 1
  {
    hide Cyclic;
    OthersCannot(n, s, m.t);
    ThreadSound(n, s, m.t);
  }
}
