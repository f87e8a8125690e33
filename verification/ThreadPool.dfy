/** The bounded pool of download threads: one main thread starting, waiting for and joining workers
    under a mutex, in the three ways the sources let the main thread wait. */
module ThreadPool {
  import opened Common
  import opened Counting

  /** `f_flags` of a file, or the state of a thread in thread_multijoin. */
  datatype Flag = Init | Connecting | Done | Joined

  /** How a finished worker reaches the main thread: web02 polls, web03 signals before it stores its
      result, thread_multijoin counts before it flags and signals after unlocking. */
  datatype Sync = Polling | SignalFirst | SignalLast

  /** Where a worker is: `Half` has made one of its two stores, `Stored` both. */
  datatype WorkerPc = Idle | Working | Acquired | Announced | Half | Stored | Released | Finished | Failed

  /** Where the main thread is. `hit` records whether this scan has joined a worker yet. */
  datatype MainPc = Top | Fill | Lock | Check | Yielded | Waiting | Woken | Scan(i: nat, hit: bool) | Unlock | Exit

  datatype Holder = Nobody | Main | Worker(i: nat)

  datatype Config = Config(n: nat, maxconn: int, sync: Sync)

  datatype State = State(
    flags: seq<Flag>, pc: seq<WorkerPc>, mutex: Holder, ndone: int,
    conn: int, toRead: int, toConn: int, main: MainPc, joins: seq<nat>)

  datatype Step = MainMoves | WorkerMoves(i: nat) | WorkerFails(i: nat) | Spurious

  function Start(c: Config): State {
    State(seq(c.n, _ => Init), seq(c.n, _ => Idle), Nobody, 0, 0, c.n, c.n, Top, [])
  }

  /** The first file not yet started. */
  function FirstInit(flags: seq<Flag>, i: nat): nat
    requires i <= |flags|
    decreases |flags| - i
  {
    if i == |flags| || flags[i] == Init then i else FirstInit(flags, i + 1)
  }

  function StartFile(s: State, i: nat): State
    requires i < |s.flags| == |s.pc|
  {
    s.(flags := s.flags[i := Connecting], pc := s.pc[i := Working], conn := s.conn + 1, toConn := s.toConn - 1)
  }

  function JoinFile(s: State, i: nat): State
    requires i < |s.flags|
  {
    s.(flags := s.flags[i := Joined], ndone := s.ndone - 1, conn := s.conn - 1, toRead := s.toRead - 1,
       joins := s.joins + [i], main := Scan(i + 1, true))
  }

  /** The next move of the main thread; None while it is blocked. */
  function MainMove(c: Config, s: State): Option<State>
    requires |s.flags| == |s.pc|
  {
    match s.main
    case Top => Some(s.(main := if s.toRead > 0 then Fill else Exit))
    case Fill =>
      var i := FirstInit(s.flags, 0);
      if s.conn < c.maxconn && s.toConn > 0 && i < |s.flags| then
        Some(StartFile(s, i))
      else Some(s.(main := Lock))
    case Lock => if s.mutex == Nobody then Some(s.(mutex := Main, main := Check)) else None
    case Check =>
      if s.ndone != 0 then Some(s.(main := Scan(0, false)))
      else Some(s.(mutex := Nobody, main := if c.sync == Polling then Yielded else Waiting))
    case Yielded => Some(s.(main := Lock))
    case Waiting => None
    case Woken => if s.mutex == Nobody then Some(s.(mutex := Main, main := Check)) else None
    case Scan(i, hit) =>
      if i >= |s.flags| then Some(s.(main := Unlock))
      else if s.flags[i] != Done then Some(s.(main := Scan(i + 1, hit)))
      else if s.pc[i] != Finished then None  // pthread_join waits
      else Some(JoinFile(s, i))
    case Unlock => Some(s.(mutex := Nobody, main := Top))
    case Exit => None
  }

  function Signalled(m: MainPc): MainPc {
    if m == Waiting then Woken else m
  }

  /** The next move of a worker whose download succeeds; None while it is blocked or not running. */
  function WorkerMove(c: Config, s: State, i: nat): Option<State>
    requires i < |s.flags| == |s.pc|
  {
    match s.pc[i]
    case Working => if s.mutex == Nobody then Some(s.(mutex := Worker(i), pc := s.pc[i := Acquired])) else None
    case Acquired =>
      Some(if c.sync == SignalFirst then s.(main := Signalled(s.main), pc := s.pc[i := Announced])
           else s.(pc := s.pc[i := Announced]))
    case Announced =>
      Some(if c.sync == SignalLast then s.(ndone := s.ndone + 1, pc := s.pc[i := Half])
           else s.(flags := s.flags[i := Done], pc := s.pc[i := Half]))
    case Half =>
      Some(if c.sync == SignalLast then s.(flags := s.flags[i := Done], pc := s.pc[i := Stored])
           else s.(ndone := s.ndone + 1, pc := s.pc[i := Stored]))
    case Stored => Some(s.(mutex := Nobody, pc := s.pc[i := Released]))
    case Released =>
      Some(if c.sync == SignalLast then s.(main := Signalled(s.main), pc := s.pc[i := Finished])
           else s.(pc := s.pc[i := Finished]))
    case _ => None
  }

  function Apply(c: Config, s: State, step: Step): Option<State>
    requires |s.flags| == |s.pc|
  {
    match step
    case MainMoves => MainMove(c, s)
    case WorkerMoves(i) => if i < |s.pc| then WorkerMove(c, s, i) else None
    case WorkerFails(i) => if i < |s.pc| && s.pc[i] == Working then Some(s.(pc := s.pc[i := Failed])) else None
    case Spurious => if s.main == Waiting then Some(s.(main := Woken)) else None
  }

  // ---------- counting ----------

  lemma {:induction false} CountAll(flags: seq<Flag>)
    ensures Count(flags, Init) + Count(flags, Connecting) + Count(flags, Done) + Count(flags, Joined) == |flags|
  {
    if flags != [] {
      CountAll(flags[..|flags| - 1]);
      var last := flags[|flags| - 1];
      assert last == Init || last == Connecting || last == Done || last == Joined;
      assert forall f :: Count(flags, f) == Count(flags[..|flags| - 1], f) + if last == f then 1 else 0;
    }
  }

  // ---------- the invariant ----------

  /** What the flag of a file says about its worker. */
  predicate Matches(c: Config, flag: Flag, pc: WorkerPc) {
    match flag
    case Init => pc == Idle
    case Connecting => pc in {Working, Acquired, Announced, Failed} || (pc == Half && c.sync == SignalLast)
    case Done => pc in {Stored, Released, Finished} || (pc == Half && c.sync != SignalLast)
    case Joined => pc == Finished
  }

  predicate Inside(pc: WorkerPc) {
    pc in {Acquired, Announced, Half, Stored}
  }

  predicate MainInside(m: MainPc) {
    m == Check || m.Scan? || m == Unlock
  }

  /** Between its two stores the worker holding the mutex has made only one of them. */
  function Pending(c: Config, s: State): int {
    if s.mutex.Worker? && s.mutex.i < |s.pc| && s.pc[s.mutex.i] == Half then
      if c.sync == SignalLast then 1 else -1
    else 0
  }

  /** Each worker agrees with its file and holds the mutex exactly inside its critical section. */
  ghost predicate WorkersOk(c: Config, s: State) {
    && |s.flags| == |s.pc| == c.n
    && (forall i :: 0 <= i < c.n ==> Matches(c, s.flags[i], s.pc[i]))
    && (forall i :: 0 <= i < c.n ==> (Inside(s.pc[i]) <==> s.mutex == Worker(i)))
    && (s.mutex == Main <==> MainInside(s.main))
    && (s.mutex.Worker? ==> s.mutex.i < c.n)
  }

  /** The counters count what they are named for. */
  ghost predicate CountersOk(c: Config, s: State) {
    && s.ndone == Count(s.flags, Done) + Pending(c, s)
    && s.conn == Count(s.flags, Connecting) + Count(s.flags, Done)
    && s.toRead == c.n - Count(s.flags, Joined)
    && s.toConn == Count(s.flags, Init)
    && (s.conn <= c.maxconn || s.conn == 0)
  }

  /** While the main thread sleeps there is nothing to collect, or a signal is still to come. */
  ghost predicate NoLostWakeup(c: Config, s: State) {
    s.main == Waiting ==>
      match c.sync
      case Polling => false
      case SignalFirst => s.ndone == 0 && forall i :: 0 <= i < |s.pc| ==> s.pc[i] !in {Announced, Half, Stored}
      case SignalLast => s.ndone == 0 || exists i :: 0 <= i < |s.pc| && s.pc[i] in {Half, Stored, Released}
  }

  /** The main thread has not yet joined anything since it last looked at `nlefttoread`. */
  predicate Unserved(m: MainPc) {
    m in {Lock, Check, Yielded, Waiting, Woken} || (m.Scan? && !m.hit)
  }

  /** Where the main thread is says what it has already made sure of. */
  ghost predicate MainOk(c: Config, s: State) {
    && |s.flags| == c.n
    && (s.main == Exit ==> s.toRead <= 0)
    && (s.main == Fill || Unserved(s.main) ==> s.toRead > 0)
    && (Unserved(s.main) ==> s.conn >= c.maxconn || s.toConn == 0)
    && (s.main.Scan? ==> s.main.i <= c.n)
    && (s.main.Scan? ==> forall j :: 0 <= j < s.main.i && j < |s.flags| ==> s.flags[j] != Done)
    && (s.main.Scan? && !s.main.hit ==> s.ndone != 0)
  }

  /** The join record lists every joined file once. */
  ghost predicate JoinsOk(s: State) {
    && (forall i: nat :: i in s.joins <==> i < |s.flags| && s.flags[i] == Joined)
    && (forall x, y :: 0 <= x < y < |s.joins| ==> s.joins[x] != s.joins[y])
  }

  ghost predicate Inv(c: Config, s: State) {
    WorkersOk(c, s) && CountersOk(c, s) && NoLostWakeup(c, s) && MainOk(c, s) && JoinsOk(s)
  }

  lemma StartInv(c: Config)
    ensures Inv(c, Start(c))
  {
    CountConstant(c.n, Init, Init);
    CountConstant(c.n, Init, Connecting);
    CountConstant(c.n, Init, Done);
    CountConstant(c.n, Init, Joined);
  }

  // ---------- a worker's move keeps the invariant ----------

  lemma WorkerKeepsWorkers(c: Config, s: State, i: nat)
    requires WorkersOk(c, s) && i < c.n && WorkerMove(c, s, i).Some?
    ensures WorkersOk(c, WorkerMove(c, s, i).value)
  {
  }

  lemma WorkerKeepsCounters(c: Config, s: State, i: nat)
    requires WorkersOk(c, s) && CountersOk(c, s) && i < c.n && WorkerMove(c, s, i).Some?
    ensures CountersOk(c, WorkerMove(c, s, i).value)
  {
    assert Matches(c, s.flags[i], s.pc[i]) && (Inside(s.pc[i]) <==> s.mutex == Worker(i));
    CountsUpdate(s.flags, i, Done);
  }

  lemma WorkerKeepsWakeup(c: Config, s: State, i: nat)
    requires WorkersOk(c, s) && NoLostWakeup(c, s) && i < c.n && WorkerMove(c, s, i).Some?
    ensures NoLostWakeup(c, WorkerMove(c, s, i).value)
  {
    assert Inside(s.pc[i]) <==> s.mutex == Worker(i);
    var t := WorkerMove(c, s, i).value;
    if s.main == Waiting && t.main == Waiting && c.sync == SignalLast && t.ndone != 0 {
      if s.pc[i] in {Announced, Half, Stored} {
        assert t.pc[i] in {Half, Stored, Released};
      } else {
        var j :| 0 <= j < |s.pc| && s.pc[j] in {Half, Stored, Released};
        assert t.pc[j] in {Half, Stored, Released};
      }
    }
  }

  lemma WorkerKeepsMain(c: Config, s: State, i: nat)
    requires WorkersOk(c, s) && MainOk(c, s) && i < c.n && WorkerMove(c, s, i).Some?
    ensures MainOk(c, WorkerMove(c, s, i).value)
  {
    assert Inside(s.pc[i]) <==> s.mutex == Worker(i);
  }

  lemma WorkerKeepsJoins(c: Config, s: State, i: nat)
    requires WorkersOk(c, s) && JoinsOk(s) && i < c.n && WorkerMove(c, s, i).Some?
    ensures JoinsOk(WorkerMove(c, s, i).value)
  {
    assert Matches(c, s.flags[i], s.pc[i]);
  }

  lemma WorkerKeeps(c: Config, s: State, i: nat)
    requires Inv(c, s) && i < c.n && WorkerMove(c, s, i).Some?
    ensures Inv(c, WorkerMove(c, s, i).value)
  {
    hide WorkersOk, CountersOk, NoLostWakeup, MainOk, JoinsOk, MainMove, WorkerMove;
    WorkerKeepsWorkers(c, s, i);
    WorkerKeepsCounters(c, s, i);
    WorkerKeepsWakeup(c, s, i);
    WorkerKeepsMain(c, s, i);
    WorkerKeepsJoins(c, s, i);
  }

  // ---------- a move of the main thread keeps the invariant ----------

  lemma {:induction false} FirstInitFinds(flags: seq<Flag>, i: nat)
    requires i <= |flags|
    ensures i <= FirstInit(flags, i) <= |flags|
    ensures FirstInit(flags, i) < |flags| ==> flags[FirstInit(flags, i)] == Init
    ensures forall j :: i <= j < FirstInit(flags, i) ==> flags[j] != Init
    decreases |flags| - i
  {
    if i < |flags| && flags[i] != Init {
      FirstInitFinds(flags, i + 1);
    }
  }

  lemma MainKeepsWorkers(c: Config, s: State)
    requires WorkersOk(c, s) && MainMove(c, s).Some?
    ensures WorkersOk(c, MainMove(c, s).value)
  {
    FirstInitFinds(s.flags, 0);
    var i := FirstInit(s.flags, 0);
    assert i < c.n ==> Matches(c, s.flags[i], s.pc[i]);
  }

  lemma StartFileCounters(c: Config, s: State, i: nat)
    requires WorkersOk(c, s) && CountersOk(c, s) && i < c.n && s.flags[i] == Init && s.conn < c.maxconn
    ensures CountersOk(c, StartFile(s, i))
  {
    assert Matches(c, s.flags[i], s.pc[i]) && (Inside(s.pc[i]) <==> s.mutex == Worker(i));
    CountsUpdate(s.flags, i, Connecting);
  }

  lemma JoinFileCounters(c: Config, s: State, i: nat)
    requires WorkersOk(c, s) && CountersOk(c, s) && i < c.n && s.flags[i] == Done && s.mutex == Main
    ensures CountersOk(c, JoinFile(s, i))
  {
    CountsUpdate(s.flags, i, Joined);
  }

  lemma MainKeepsCounters(c: Config, s: State)
    requires WorkersOk(c, s) && CountersOk(c, s) && MainMove(c, s).Some?
    ensures CountersOk(c, MainMove(c, s).value)
  {
    FirstInitFinds(s.flags, 0);
    var i := FirstInit(s.flags, 0);
    hide WorkersOk, CountersOk, Matches, Inside, Count, FirstInit, StartFile, JoinFile;
    LengthsOk(c, s);
    if s.main == Fill && i < c.n && s.conn < c.maxconn && s.toConn > 0 {
      StartFileCounters(c, s, i);
    } else if s.main.Scan? && s.main.i < |s.flags| && s.flags[s.main.i] == Done {
      JoinFileCounters(c, s, s.main.i);
    } else {
      OtherCounters(c, s, MainMove(c, s).value);
    }
  }

  lemma LengthsOk(c: Config, s: State)
    requires WorkersOk(c, s)
    ensures |s.flags| == |s.pc| == c.n && (MainInside(s.main) <==> s.mutex == Main)
  {
  }

  /** Moves that touch only the main thread's place and the mutex it holds. */
  lemma OtherCounters(c: Config, s: State, t: State)
    requires WorkersOk(c, s) && CountersOk(c, s)
    requires t == s.(mutex := t.mutex, main := t.main)
    requires t.mutex == s.mutex || (!t.mutex.Worker? && !s.mutex.Worker?)
    ensures CountersOk(c, t)
  {
  }

  lemma MainKeepsWakeup(c: Config, s: State)
    requires WorkersOk(c, s) && CountersOk(c, s) && NoLostWakeup(c, s) && MainMove(c, s).Some?
    ensures NoLostWakeup(c, MainMove(c, s).value)
  {
    var t := MainMove(c, s).value;
    if t.main == Waiting {
      forall i | 0 <= i < c.n
        ensures !Inside(s.pc[i])
      {
        assert Inside(s.pc[i]) <==> s.mutex == Worker(i);
      }
    }
  }

  lemma FillKeepsMain(c: Config, s: State)
    requires WorkersOk(c, s) && CountersOk(c, s) && MainOk(c, s) && s.main == Fill
    ensures MainOk(c, MainMove(c, s).value)
  {
    FirstInitFinds(s.flags, 0);
    CountZero(s.flags, Init);
  }

  lemma ScanKeepsMain(c: Config, s: State)
    requires WorkersOk(c, s) && CountersOk(c, s) && MainOk(c, s) && s.main.Scan? && MainMove(c, s).Some?
    ensures MainOk(c, MainMove(c, s).value)
  {
    CountZero(s.flags, Done);
    hide FirstInit, Count, Matches, Inside;
  }

  lemma MainKeepsMain(c: Config, s: State)
    requires WorkersOk(c, s) && CountersOk(c, s) && MainOk(c, s) && MainMove(c, s).Some?
    ensures MainOk(c, MainMove(c, s).value)
  {
    hide FirstInit, Count, Matches, Inside, StartFile, JoinFile;
    match s.main
    case Fill => FillKeepsMain(c, s);
    case Scan(i, hit) => ScanKeepsMain(c, s);
    case _ =>
  }

  lemma MainKeepsJoins(c: Config, s: State)
    requires WorkersOk(c, s) && JoinsOk(s) && MainMove(c, s).Some?
    ensures JoinsOk(MainMove(c, s).value)
  {
    FirstInitFinds(s.flags, 0);
  }

  lemma MainKeeps(c: Config, s: State)
    requires Inv(c, s) && MainMove(c, s).Some?
    ensures Inv(c, MainMove(c, s).value)
  {
    hide WorkersOk, CountersOk, NoLostWakeup, MainOk, JoinsOk, MainMove, WorkerMove;
    MainKeepsWorkers(c, s);
    MainKeepsCounters(c, s);
    MainKeepsWakeup(c, s);
    MainKeepsMain(c, s);
    MainKeepsJoins(c, s);
  }

  // ---------- runs ----------

  /** The state after a sequence of moves, if each was possible. */
  ghost function Run(c: Config, steps: seq<Step>): (r: Option<State>)
    ensures r.Some? ==> |r.value.flags| == |r.value.pc| == c.n
  {
    if steps == [] then Some(Start(c))
    else
      var before := Run(c, steps[..|steps| - 1]);
      if before.None? then None
      else
        StepKeepsLengths(c, before.value, steps[|steps| - 1]);
        Apply(c, before.value, steps[|steps| - 1])
  }

  lemma StepKeepsLengths(c: Config, s: State, step: Step)
    requires |s.flags| == |s.pc| == c.n
    ensures Apply(c, s, step).Some? ==> |Apply(c, s, step).value.flags| == |Apply(c, s, step).value.pc| == c.n
  {
  }

  lemma FailKeeps(c: Config, s: State, i: nat)
    requires Inv(c, s) && i < c.n && s.pc[i] == Working
    ensures Inv(c, s.(pc := s.pc[i := Failed]))
  {
    var t := s.(pc := s.pc[i := Failed]);
    assert Matches(c, s.flags[i], s.pc[i]) && (Inside(s.pc[i]) <==> s.mutex == Worker(i));
    if s.main == Waiting && c.sync == SignalLast && s.ndone != 0 {
      var j :| 0 <= j < |s.pc| && s.pc[j] in {Half, Stored, Released};
      assert t.pc[j] in {Half, Stored, Released};
    }
  }

  lemma StepKeeps(c: Config, s: State, step: Step)
    requires Inv(c, s) && Apply(c, s, step).Some?
    ensures Inv(c, Apply(c, s, step).value)
  {
    match step
    case MainMoves => MainKeeps(c, s);
    case WorkerMoves(i) => WorkerKeeps(c, s, i);
    case WorkerFails(i) => FailKeeps(c, s, i);
    case Spurious =>
      assert s.mutex != Main;
  }

  lemma {:induction false} RunKeeps(c: Config, steps: seq<Step>)
    requires Run(c, steps).Some?
    ensures Inv(c, Run(c, steps).value)
  {
    if steps == [] {
      StartInv(c);
    } else {
      var init := steps[..|steps| - 1];
      RunKeeps(c, init);
      StepKeeps(c, Run(c, init).value, steps[|steps| - 1]);
    }
  }

  /** In every interleaving, whichever workers fail: whenever no worker is between its two stores the
      done count is the number of finished unjoined files, the connection count is the number of
      files started and not joined and respects its bound, and the count left to read is the number
      of files not joined. */
  lemma CountersAlwaysRight(c: Config, steps: seq<Step>)
    requires Run(c, steps).Some?
    ensures var s := Run(c, steps).value;
            && (s.mutex in {Nobody, Main} ==> s.ndone == Count(s.flags, Done))
            && s.conn == Count(s.flags, Connecting) + Count(s.flags, Done)
            && 0 <= s.conn && (c.maxconn >= 0 ==> s.conn <= c.maxconn)
            && s.toRead == c.n - Count(s.flags, Joined) == s.toConn + s.conn
  {
    RunKeeps(c, steps);
    CountAll(Run(c, steps).value.flags);
  }

  /** The main thread leaves its loop only when every file has been joined, each exactly once. */
  lemma ExitMeansAllJoinedOnce(c: Config, steps: seq<Step>)
    requires Run(c, steps).Some? && Run(c, steps).value.main == Exit
    ensures var s := Run(c, steps).value;
            && (forall i :: 0 <= i < c.n ==> s.flags[i] == Joined && s.pc[i] == Finished)
            && (forall i: nat :: i in s.joins <==> i < c.n)
            && (forall x, y :: 0 <= x < y < |s.joins| ==> s.joins[x] != s.joins[y])
  {
    RunKeeps(c, steps);
    var s := Run(c, steps).value;
    CountAll(s.flags);
    CountZero(s.flags, Init);
    CountZero(s.flags, Connecting);
    CountZero(s.flags, Done);
    forall i | 0 <= i < c.n
      ensures s.flags[i] == Joined && s.pc[i] == Finished
    {
      assert Matches(c, s.flags[i], s.pc[i]);
    }
  }

  // ---------- progress ----------

  predicate CanMove(c: Config, s: State)
    requires |s.flags| == |s.pc|
  {
    MainMove(c, s).Some? || exists i :: 0 <= i < |s.pc| && WorkerMove(c, s, i).Some?
  }

  /** Everybody who could still signal is gone. */
  predicate Quiet(s: State) {
    forall i :: 0 <= i < |s.pc| ==> s.pc[i] in {Idle, Finished, Failed}
  }

  /** The program can be stuck short of its exit only with the main thread asleep and no worker left
      to wake it. */
  lemma StuckExactly(c: Config, s: State)
    requires Inv(c, s) && s.main != Exit
    ensures !CanMove(c, s) <==> s.main == Waiting && Quiet(s)
  {
    if Quiet(s) {
      assert !CanMove(c, s) || s.main != Waiting;
      if s.main != Waiting {
        assert s.mutex != Nobody ==> MainInside(s.main) by {
          if s.mutex.Worker? {
            assert Inside(s.pc[s.mutex.i]) <==> s.mutex == Worker(s.mutex.i);
          }
        }
        if s.main.Scan? && s.main.i < c.n {
          assert Matches(c, s.flags[s.main.i], s.pc[s.main.i]);
        }
        assert MainMove(c, s).Some?;
      }
    } else {
      var i :| 0 <= i < |s.pc| && s.pc[i] !in {Idle, Finished, Failed};
      SomebodyMoves(c, s, i);
    }
  }

  lemma SomebodyMoves(c: Config, s: State, i: nat)
    requires Inv(c, s) && i < c.n && s.pc[i] !in {Idle, Finished, Failed}
    ensures CanMove(c, s)
  {
    if s.mutex == Main {
      if s.main.Scan? && s.main.i < c.n {
        var j := s.main.i;
        assert Matches(c, s.flags[j], s.pc[j]) && (Inside(s.pc[j]) <==> s.mutex == Worker(j));
        assert s.flags[j] == Done && s.pc[j] != Finished ==> WorkerMove(c, s, j).Some?;
      }
    } else if s.mutex.Worker? {
      var j := s.mutex.i;
      assert Inside(s.pc[j]) <==> s.mutex == Worker(j);
      assert WorkerMove(c, s, j).Some?;
    } else {
      assert Inside(s.pc[i]) <==> s.mutex == Worker(i);
      assert WorkerMove(c, s, i).Some?;
    }
  }

  /** A main thread asleep with nobody left to wake it means that a worker failed or that no
      connection was ever allowed. */
  lemma QuietAsleep(c: Config, s: State)
    requires Inv(c, s) && s.main == Waiting && Quiet(s)
    ensures c.sync != Polling && c.n > 0 && (Failed in s.pc || c.maxconn <= 0)
  {
    CountZero(s.flags, Connecting);
    CountAll(s.flags);
    if Failed !in s.pc {
      forall i | 0 <= i < c.n
        ensures s.flags[i] != Connecting
      {
        assert Matches(c, s.flags[i], s.pc[i]);
      }
      assert s.conn == 0;
    }
  }

  /** No wakeup is lost: with at least one connection allowed and no worker failed, the program can
      always move until it exits. Polling never blocks at all. */
  lemma NeverStuck(c: Config, steps: seq<Step>)
    requires Run(c, steps).Some? && Run(c, steps).value.main != Exit
    requires c.sync == Polling || (c.maxconn >= 1 && Failed !in Run(c, steps).value.pc)
    ensures CanMove(c, Run(c, steps).value)
  {
    RunKeeps(c, steps);
    var s := Run(c, steps).value;
    StuckExactly(c, s);
    if s.main == Waiting && Quiet(s) {
      QuietAsleep(c, s);
    }
  }

  // ---------- order ----------

  ghost predicate InOrder(s: State) {
    && (forall i, j :: 0 <= i < j < |s.flags| && s.flags[i] == Init ==> s.flags[j] == Init)
    && (s.main == Unlock ==> Done !in s.flags)
  }

  lemma MainInOrder(c: Config, s: State)
    requires |s.flags| == |s.pc| && MainOk(c, s) && InOrder(s) && MainMove(c, s).Some?
    ensures InOrder(MainMove(c, s).value)
  {
    FirstInitFinds(s.flags, 0);
    hide FirstInit;
  }

  lemma WorkerInOrder(c: Config, s: State, i: nat)
    requires WorkersOk(c, s) && InOrder(s) && i < |s.pc| && WorkerMove(c, s, i).Some?
    ensures InOrder(WorkerMove(c, s, i).value)
  {
    assert Matches(c, s.flags[i], s.pc[i]) && (Inside(s.pc[i]) <==> s.mutex == Worker(i));
  }

  lemma StepInOrder(c: Config, s: State, step: Step)
    requires Inv(c, s) && InOrder(s) && Apply(c, s, step).Some?
    ensures InOrder(Apply(c, s, step).value)
  {
    hide MainMove, WorkerMove;
    match step
    case MainMoves => MainInOrder(c, s);
    case WorkerMoves(i) => WorkerInOrder(c, s, i);
    case _ =>
  }

  /** The files are started in their order, the main thread lets go of the mutex only when it has joined every
      worker that was done, goes to it only when it has started as many workers as it may, and sleeps only
      while there is nothing to join or a signal is on its way. */
  lemma {:induction false} MainThreadInOrder(c: Config, steps: seq<Step>)
    requires Run(c, steps).Some?
    ensures var s := Run(c, steps).value;
            && InOrder(s)
            && (s.main in {Lock, Check, Yielded, Waiting, Woken} ==> s.conn >= c.maxconn || Init !in s.flags)
            && (s.main == Waiting && c.sync == SignalFirst ==> Done !in s.flags)
            && (s.main == Waiting && Done in s.flags ==>
                  exists i :: 0 <= i < c.n && s.pc[i] in {Half, Stored, Released})
  {
    RunKeeps(c, steps);
    if steps != [] {
      RunLast(c, steps);
      var init := steps[..|steps| - 1];
      RunKeeps(c, init);
      MainThreadInOrder(c, init);
      StepInOrder(c, Run(c, init).value, steps[|steps| - 1]);
    }
    hide Run, Apply;
    PlaceOfMain(c, Run(c, steps).value);
  }

  /** With the mutex in hand it joins at once if any worker is done, and only then. */
  lemma JoinsAtOnce(c: Config, steps: seq<Step>)
    requires Run(c, steps).Some? && Run(c, steps).value.main == Check
    ensures var r := Run(c, steps + [MainMoves]);
            r.Some? && (r.value.main == Scan(0, false) <==> Done in Run(c, steps).value.flags)
  {
    assert (steps + [MainMoves])[..|steps|] == steps;
    RunKeeps(c, steps);
    CountZero(Run(c, steps).value.flags, Done);
    hide Count;
  }

  lemma PlaceOfMain(c: Config, s: State)
    requires Inv(c, s)
    ensures s.main in {Lock, Check, Yielded, Waiting, Woken} ==> s.conn >= c.maxconn || Init !in s.flags
    ensures s.main == Waiting && c.sync == SignalFirst ==> Done !in s.flags
    ensures s.main == Waiting && Done in s.flags ==> exists i :: 0 <= i < c.n && s.pc[i] in {Half, Stored, Released}
  {
    CountZero(s.flags, Init);
    CountZero(s.flags, Done);
    hide Count;
  }

  /** With no connection allowed the first wait is forever, so the bound above is needed. */
  lemma NoConnectionsHang(c: Config)
    requires c.n > 0 && c.maxconn <= 0 && c.sync != Polling
    ensures var r := Run(c, seq(4, _ => MainMoves));
            r.Some? && r.value.main == Waiting && !CanMove(c, r.value)
  {
    var s1 := Start(c).(main := Fill);
    var s2 := s1.(main := Lock);
    var s3 := s2.(mutex := Main, main := Check);
    var s4 := s3.(mutex := Nobody, main := Waiting);
    var m: seq<Step> := seq(4, _ => MainMoves);
    assert m[..3][..2][..1][..0] == [];
    assert Run(c, m[..3][..2][..1]) == Some(s1);
    assert Run(c, m[..3][..2]) == Some(s2);
    assert Run(c, m[..3]) == Some(s3);
    assert Run(c, m) == Some(s4);
    RunKeeps(c, m);
    StuckExactly(c, s4);
  }

  lemma RunLast(c: Config, steps: seq<Step>)
    requires steps != [] && Run(c, steps).Some?
    ensures var before := Run(c, steps[..|steps| - 1]);
            before.Some? && Apply(c, before.value, steps[|steps| - 1]) == Run(c, steps) && Inv(c, before.value)
  {
    RunKeeps(c, steps[..|steps| - 1]);
  }

  /** With no connection allowed nothing is ever started. */
  lemma {:induction false} NothingStarts(c: Config, steps: seq<Step>)
    requires Run(c, steps).Some? && c.maxconn <= 0
    ensures forall i :: 0 <= i < c.n ==> Run(c, steps).value.pc[i] == Idle
    ensures c.n > 0 ==> Run(c, steps).value.pc[0] == Idle
    decreases |steps|
  {
    if steps != [] {
      hide Apply, Inv, Run;
      var init := steps[..|steps| - 1];
      RunLast(c, steps);
      NothingStarts(c, init);
      CountersAlwaysRight(c, init);
      IdleStays(c, Run(c, init).value, steps[|steps| - 1]);
    }
  }

  lemma IdleStays(c: Config, s: State, step: Step)
    requires Inv(c, s) && Apply(c, s, step).Some? && c.maxconn <= 0 <= s.conn
    requires forall i :: 0 <= i < c.n ==> s.pc[i] == Idle
    ensures forall i :: 0 <= i < c.n ==> Apply(c, s, step).value.pc[i] == Idle
  {
  }

  /** A run that has come to a standstill is at its exit if and only if no worker has failed and, unless there
      is nothing to do, a connection was allowed. */
  lemma StandstillExactly(c: Config, steps: seq<Step>)
    requires Run(c, steps).Some? && !CanMove(c, Run(c, steps).value)
    ensures var s := Run(c, steps).value;
            s.main == Exit <==> Failed !in s.pc && (c.n == 0 || c.maxconn >= 1)
  {
    var s := Run(c, steps).value;
    RunKeeps(c, steps);
    hide Run, CanMove, Inv;
    if s.main == Exit {
      ExitMeansAllJoinedOnce(c, steps);
      if c.maxconn <= 0 {
        NothingStarts(c, steps);
      }
    } else {
      StuckExactly(c, s);
      QuietAsleep(c, s);
    }
  }

  /** A failed worker is never joined, so from then on the main thread does not get to its exit, whether it
      sleeps or polls. */
  lemma {:induction false} FailureIsFinal(c: Config, steps: seq<Step>, k: nat)
    requires k <= |steps| && Run(c, steps).Some? && Run(c, steps[..k]).Some? && Failed in Run(c, steps[..k]).value.pc
    ensures Failed in Run(c, steps).value.pc && Run(c, steps).value.main != Exit
    decreases |steps|
  {
    hide Apply, Inv, Run;
    if k == |steps| {
      assert steps[..k] == steps;
    } else {
      var init := steps[..|steps| - 1];
      assert init[..k] == steps[..k];
      RunLast(c, steps);
      FailureIsFinal(c, init, k);
      FailedStays(c, Run(c, init).value, steps[|steps| - 1]);
    }
    if Run(c, steps).value.main == Exit {
      ExitMeansAllJoinedOnce(c, steps);
    }
  }

  lemma FailedStays(c: Config, s: State, step: Step)
    requires Inv(c, s) && Failed in s.pc && Apply(c, s, step).Some?
    ensures Failed in Apply(c, s, step).value.pc
  {
    hide CountersOk, NoLostWakeup, MainOk, JoinsOk, FirstInit;
    var i :| 0 <= i < |s.pc| && s.pc[i] == Failed;
    assert Matches(c, s.flags[i], s.pc[i]);
    FirstInitFinds(s.flags, 0);
    assert Apply(c, s, step).value.pc[i] == Failed;
  }

  /** A run that hangs: the only worker fails before its critical section and the main thread goes to sleep. */
  lemma FailedWorkerHangs(sync: Sync) returns (steps: seq<Step>)
    requires sync != Polling
    ensures var c, r := Config(1, 1, sync), Run(Config(1, 1, sync), steps);
            && r.Some? && WorkerFails(0) in steps
            && r.value.main == Waiting && r.value.pc == [Failed] && !CanMove(c, r.value)
  {
    var c := Config(1, 1, sync);
    var s0 := State([Init], [Idle], Nobody, 0, 0, 1, 1, Top, []);
    var s1 := s0.(main := Fill);
    var s2 := State([Connecting], [Working], Nobody, 0, 1, 1, 0, Fill, []);
    var s3, s4 := s2.(main := Lock), s2.(main := Lock, pc := [Failed]);
    assert Start(c) == s0 && Run(c, []) == Some(s0);
    FirstStarts(c, s1);
    FailsAndSleeps(c, s3);
    assert Apply(c, s0, MainMoves) == Some(s1) && Apply(c, s2, MainMoves) == Some(s3);
    hide Run, Apply, CanMove, Start;
    steps := RunOn(c, [], MainMoves, s0);
    steps := RunOn(c, steps, MainMoves, s1);
    steps := RunOn(c, steps, MainMoves, s2);
    steps := RunOn(c, steps, WorkerFails(0), s3);
    steps := RunOn(c, steps, MainMoves, s4);
    steps := RunOn(c, steps, MainMoves, s4.(mutex := Main, main := Check));
  }

  lemma FailsAndSleeps(c: Config, s: State)
    requires c.sync != Polling && s == State([Connecting], [Working], Nobody, 0, 1, 1, 0, Lock, [])
    ensures var failed := s.(pc := [Failed]);
            var checks, sleeps := failed.(mutex := Main, main := Check), failed.(main := Waiting);
            && Apply(c, s, WorkerFails(0)) == Some(failed)
            && Apply(c, failed, MainMoves) == Some(checks)
            && Apply(c, checks, MainMoves) == Some(sleeps) && !CanMove(c, sleeps)
  {
    assert s.pc[0 := Failed] == [Failed];
  }

  lemma FirstStarts(c: Config, s: State)
    requires c.maxconn == 1 && s == State([Init], [Idle], Nobody, 0, 0, 1, 1, Fill, [])
    ensures Apply(c, s, MainMoves) == Some(State([Connecting], [Working], Nobody, 0, 1, 1, 0, Fill, []))
  {
    assert FirstInit(s.flags, 0) == 0;
    assert s.flags[0 := Connecting] == [Connecting] && s.pc[0 := Working] == [Working];
  }

  lemma RunOn(c: Config, steps: seq<Step>, step: Step, s: State) returns (more: seq<Step>)
    requires Run(c, steps) == Some(s)
    ensures |s.flags| == |s.pc| && Run(c, more) == Apply(c, s, step)
    ensures step in more && forall x :: x in steps ==> x in more
  {
    more := steps + [step];
    assert more[..|steps|] == steps;
  }

  // ---------- every move is progress ----------

  /** How much a worker has still to do. */
  function Effort(pc: WorkerPc): nat {
    match pc
    case Idle => 8
    case Working => 7
    case Acquired => 6
    case Announced => 5
    case Half => 4
    case Stored => 3
    case Released => 2
    case Finished => 1
    case Failed => 0
  }

  function Work(pc: seq<WorkerPc>): nat {
    if pc == [] then 0 else Work(pc[..|pc| - 1]) + Effort(pc[|pc| - 1])
  }

  lemma {:induction false} WorkUpdate(pc: seq<WorkerPc>, i: nat, to: WorkerPc)
    requires i < |pc|
    ensures Work(pc[i := to]) == Work(pc) - Effort(pc[i]) + Effort(to)
  {
    var last := |pc| - 1;
    if i < last {
      assert pc[i := to][..last] == pc[..last][i := to];
      WorkUpdate(pc[..last], i, to);
    } else {
      assert pc[i := to][..last] == pc[..last];
    }
  }

  /** How far the main thread is from its next wait or exit. */
  function Distance(c: Config, s: State): int {
    match s.main
    case Exit => 0
    case Waiting => 0
    case Scan(i, hit) => if hit then c.n + 7 + s.toConn + (c.n - i) else 1 + c.n - i
    case Check => c.n + 2
    case Lock => c.n + 3
    case Woken => c.n + 3
    case Yielded => c.n + 4
    case Fill => c.n + 4 + s.toConn
    case Top => c.n + 5 + s.toConn
    case Unlock => c.n + 6 + s.toConn
  }

  /** A poll that finds nothing, and a wakeup without a signal, are the only moves that bring nothing. */
  predicate Idles(c: Config, s: State, step: Step) {
    step == Spurious || (step == MainMoves && s.main == Check && s.ndone == 0 && c.sync == Polling)
  }

  /** Fewer files to read, or less work for the workers, or a shorter way for the main thread, in this
      order of importance. */
  predicate Closer(c: Config, t: State, s: State) {
    || t.toRead < s.toRead
    || (t.toRead == s.toRead && Work(t.pc) < Work(s.pc))
    || (t.toRead == s.toRead && Work(t.pc) == Work(s.pc) && Distance(c, t) < Distance(c, s))
  }

  lemma StartFileCloser(c: Config, s: State, i: nat)
    requires i < |s.flags| == |s.pc| && s.pc[i] == Idle
    ensures Closer(c, StartFile(s, i), s)
  {
    WorkUpdate(s.pc, i, Working);
  }

  lemma FillProgress(c: Config, s: State)
    requires Inv(c, s) && s.main == Fill
    ensures Closer(c, MainMove(c, s).value, s)
  {
    FirstInitFinds(s.flags, 0);
    var i := FirstInit(s.flags, 0);
    if i < c.n {
      assert Matches(c, s.flags[i], s.pc[i]);
      StartFileCloser(c, s, i);
    }
    hide FirstInit, Count, Work, Matches, Inside, StartFile, NoLostWakeup, JoinsOk, CountersOk;
  }

  lemma ScanProgress(c: Config, s: State)
    requires Inv(c, s) && s.main.Scan? && MainMove(c, s).Some?
    ensures Closer(c, MainMove(c, s).value, s)
  {
    CountZero(s.flags, Done);
    hide Count, Work, Matches, Inside, NoLostWakeup, JoinsOk;
  }

  lemma MainProgress(c: Config, s: State)
    requires Inv(c, s) && MainMove(c, s).Some? && !Idles(c, s, MainMoves)
    ensures Closer(c, MainMove(c, s).value, s)
  {
    match s.main
    case Fill => FillProgress(c, s);
    case Scan(_, _) => ScanProgress(c, s);
    case _ =>
      hide Count, Work, Matches, Inside, NoLostWakeup, JoinsOk;
  }

  lemma WorkerProgress(c: Config, s: State, i: nat)
    requires i < |s.flags| == |s.pc| && WorkerMove(c, s, i).Some?
    ensures Closer(c, WorkerMove(c, s, i).value, s)
  {
    WorkUpdate(s.pc, i, WorkerMove(c, s, i).value.pc[i]);
    hide Work;
  }

  lemma MeasureNatural(c: Config, s: State)
    requires Inv(c, s)
    ensures s.toRead >= 0 && Distance(c, s) >= 0
  {
    CountAll(s.flags);
  }

  /** Every other move brings the run strictly closer to its end, and the three measures are never
      negative. So every run that is not idle for ever ends, and by NeverStuck it ends at the exit. */
  lemma EveryMoveIsProgress(c: Config, s: State, step: Step)
    requires Inv(c, s) && Apply(c, s, step).Some? && !Idles(c, s, step)
    ensures var t := Apply(c, s, step).value;
            Closer(c, t, s) && t.toRead >= 0 && Distance(c, t) >= 0
  {
    var t := Apply(c, s, step).value;
    StepKeeps(c, s, step);
    MeasureNatural(c, t);
    match step
    case MainMoves =>
      hide Inv, Closer, MainMove, Distance;
      MainProgress(c, s);
    case WorkerMoves(i) =>
      hide Inv, Closer, WorkerMove, Distance;
      WorkerProgress(c, s, i);
    case WorkerFails(i) =>
      WorkUpdate(s.pc, i, Failed);
      hide Inv, Distance, Work;
  }
}
