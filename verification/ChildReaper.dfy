/** A parent that reaps its children from a SIGCHLD handler, although signals that arrive while one is
    pending are merged into it. */
module ChildReaper {
  import opened Common
  import opened Counting

  datatype Child = Unborn | Alive | Zombie | Reaped

  /** SIGCHLD is blocked except in `Suspended`; `Reaping` is the waitpid loop of the handler and
      `Leaving` the rest of the handler, up to the return of sigsuspend. */
  datatype Pc = Forking(next: nat) | Test | Suspended | Reaping | Leaving | Done

  datatype State = State(children: seq<Child>, numLive: int, pending: bool, sigCnt: nat, pc: Pc)

  /** A move of the parent, with the child waitpid would pick, or the death of a child. */
  datatype Step = Parent(pick: nat) | Dies(i: nat)

  function Start(n: nat): State {
    State(seq(n, _ => Unborn), n, false, 0, Forking(0))
  }

  predicate AnyZombie(s: State) {
    exists i :: 0 <= i < |s.children| && s.children[i] == Zombie
  }

  function ParentMove(s: State, pick: nat): Option<State> {
    match s.pc
    case Forking(j) =>
      if j < |s.children| then Some(s.(children := s.children[j := Alive], pc := Forking(j + 1)))
      else Some(s.(pc := Test))
    case Test => Some(s.(pc := if s.numLive > 0 then Suspended else Done))
    case Suspended => if s.pending then Some(s.(pending := false, pc := Reaping)) else None
    case Reaping =>
      if pick < |s.children| && s.children[pick] == Zombie then
        Some(s.(children := s.children[pick := Reaped], numLive := s.numLive - 1))
      else if AnyZombie(s) then None  // waitpid would have found one
      else Some(s.(pc := Leaving))
    case Leaving => Some(s.(sigCnt := s.sigCnt + 1, pc := Test))
    case Done => None
  }

  function Apply(s: State, step: Step): Option<State> {
    match step
    case Parent(pick) => ParentMove(s, pick)
    case Dies(i) =>
      if i < |s.children| && s.children[i] == Alive then
        Some(s.(children := s.children[i := Zombie], pending := true))
      else None
  }

  function Bit(b: bool): nat {
    if b then 1 else 0
  }

  function Deaths(s: State): nat {
    Count(s.children, Zombie) + Count(s.children, Reaped)
  }

  /** The live count is the number of children not yet reaped, started or not. */
  ghost predicate CountOk(s: State) {
    && s.numLive == |s.children| - Count(s.children, Reaped)
    && s.sigCnt + Bit(s.pending) + Bit(s.pc in {Reaping, Leaving}) <= Deaths(s)
    && (s.pc.Forking? ==> s.sigCnt == 0 && Count(s.children, Reaped) == 0)
    && (s.pc in {Test, Suspended, Done} && Count(s.children, Reaped) > 0 ==> s.sigCnt > 0)
    && (s.pc == Suspended ==> s.numLive > 0)
    && (s.pc == Done ==> s.numLive <= 0)
  }

  /** A dead child not yet reaped has a signal pending for it, or the handler is still looking. */
  ghost predicate NoneForgotten(s: State) {
    AnyZombie(s) ==> s.pending || s.pc == Reaping
  }

  ghost predicate ForksOk(s: State) {
    && (forall i :: 0 <= i < |s.children| ==> (s.children[i] == Unborn <==> s.pc.Forking? && s.pc.next <= i))
    && (s.pc.Forking? ==> s.pc.next <= |s.children|)
  }

  ghost predicate Inv(s: State) {
    CountOk(s) && NoneForgotten(s) && ForksOk(s)
  }

  lemma StartInv(n: nat)
    ensures Inv(Start(n))
  {
    CountConstant(n, Unborn, Zombie);
    CountConstant(n, Unborn, Reaped);
  }

  /** The child a move changes, if any. */
  function Touched(s: State, step: Step): nat {
    match step
    case Parent(pick) => if s.pc.Forking? then s.pc.next else pick
    case Dies(i) => i
  }

  lemma DeathCounts(s: State, i: nat)
    requires CountOk(s) && Apply(s, Dies(i)).Some?
    ensures CountOk(Apply(s, Dies(i)).value)
  {
    CountUpdate(s.children, i, Zombie, Zombie);
    CountUpdate(s.children, i, Zombie, Reaped);
    hide Count;
  }

  lemma ParentCounts(s: State, pick: nat)
    requires CountOk(s) && ForksOk(s) && ParentMove(s, pick).Some?
    ensures CountOk(ParentMove(s, pick).value)
  {
    CountZero(s.children, Reaped);
    match s.pc
    case Forking(j) =>
      if j < |s.children| {
        CountUpdate(s.children, j, Alive, Zombie);
        CountUpdate(s.children, j, Alive, Reaped);
      }
      hide Count;
    case Reaping =>
      if pick < |s.children| && s.children[pick] == Zombie {
        CountUpdate(s.children, pick, Reaped, Zombie);
        CountUpdate(s.children, pick, Reaped, Reaped);
      }
      hide Count, ForksOk;
    case _ =>
      hide Count, ForksOk;
  }

  lemma StepCounts(s: State, step: Step)
    requires CountOk(s) && ForksOk(s) && Apply(s, step).Some?
    ensures CountOk(Apply(s, step).value)
  {
    hide CountOk, ForksOk;
    match step
    case Parent(pick) => ParentCounts(s, pick);
    case Dies(i) => DeathCounts(s, i);
  }

  lemma StepForgetsNone(s: State, step: Step)
    requires NoneForgotten(s) && Apply(s, step).Some?
    ensures NoneForgotten(Apply(s, step).value)
  {
    var t := Apply(s, step).value;
    assert !t.pending ==> forall i :: 0 <= i < |t.children| && t.children[i] == Zombie ==> s.children[i] == Zombie;
  }

  lemma StepForks(s: State, step: Step)
    requires ForksOk(s) && Apply(s, step).Some?
    ensures ForksOk(Apply(s, step).value)
  {
  }

  lemma StepKeeps(s: State, step: Step)
    requires Inv(s) && Apply(s, step).Some?
    ensures Inv(Apply(s, step).value) && |Apply(s, step).value.children| == |s.children|
  {
    StepCounts(s, step);
    StepForgetsNone(s, step);
    StepForks(s, step);
  }

  // ---------- runs ----------

  ghost function Run(n: nat, steps: seq<Step>): Option<State> {
    if steps == [] then Some(Start(n))
    else
      var before := Run(n, steps[..|steps| - 1]);
      if before.None? then None else Apply(before.value, steps[|steps| - 1])
  }

  lemma {:induction false} RunKeeps(n: nat, steps: seq<Step>)
    requires Run(n, steps).Some?
    ensures Inv(Run(n, steps).value) && |Run(n, steps).value.children| == n
  {
    if steps == [] {
      StartInv(n);
    } else {
      var init := steps[..|steps| - 1];
      RunKeeps(n, init);
      StepKeeps(Run(n, init).value, steps[|steps| - 1]);
    }
  }

  /** However deaths and handler runs interleave: the live count is the number of children not yet
      reaped, and a dead unreaped child is announced by a pending signal or still being looked for. */
  lemma NoChildIsLost(n: nat, steps: seq<Step>)
    requires Run(n, steps).Some?
    ensures var s := Run(n, steps).value;
            && s.numLive == n - Count(s.children, Reaped)
            && (AnyZombie(s) ==> s.pending || s.pc == Reaping)
            && (steps != [] && steps[|steps| - 1].Dies? ==> s.pending)
  {
    RunKeeps(n, steps);
  }

  /** How often the signal has been delivered to the suspended parent, which starts its handler. */
  ghost function Deliveries(n: nat, steps: seq<Step>): nat
    requires Run(n, steps).Some?
  {
    if steps == [] then 0
    else
      var init, last := steps[..|steps| - 1], steps[|steps| - 1];
      Deliveries(n, init) + if Run(n, init).value.pc == Suspended && last.Parent? then 1 else 0
  }

  /** `sigCnt` is the number of handler runs that are over: at the end, of all of them. */
  lemma {:induction false} CountsHandlerRuns(n: nat, steps: seq<Step>)
    requires Run(n, steps).Some?
    ensures var s := Run(n, steps).value;
            && s.sigCnt == Deliveries(n, steps) - Bit(s.pc in {Reaping, Leaving})
            && (s.pc == Done ==> s.sigCnt == Deliveries(n, steps))
  {
    if steps != [] {
      CountsHandlerRuns(n, steps[..|steps| - 1]);
    }
  }

  predicate CanMove(s: State) {
    (exists pick :: 0 <= pick <= |s.children| && ParentMove(s, pick).Some?)
    || (exists i :: 0 <= i < |s.children| && s.children[i] == Alive)
  }

  /** The parent never sleeps with all its children dead: until it is done, it can move or a child that
      is still alive will die and wake it. */
  lemma NeverAsleepForEver(n: nat, steps: seq<Step>)
    requires Run(n, steps).Some? && Run(n, steps).value.pc != Done
    ensures var s := Run(n, steps).value;
            CanMove(s) && (s.pc == Suspended && Alive !in s.children ==> s.pending)
  {
    RunKeeps(n, steps);
    var s := Run(n, steps).value;
    CountZero(s.children, Reaped);
    if s.pc == Reaping && AnyZombie(s) {
      var pick :| 0 <= pick < |s.children| && s.children[pick] == Zombie;
      assert ParentMove(s, pick).Some?;
    } else if s.pc != Suspended || s.pending {
      assert ParentMove(s, |s.children|).Some?;
    } else {
      var i :| 0 <= i < |s.children| && s.children[i] != Reaped;
      assert s.children[i] != Zombie && s.children[i] == Alive;
    }
  }

  /** When the parent is done every child has been reaped, in at least one and at most `n` handler runs:
      merged signals make the handler run less often, never reap less. */
  lemma DoneMeansAllReaped(n: nat, steps: seq<Step>)
    requires Run(n, steps).Some? && Run(n, steps).value.pc == Done
    ensures var s := Run(n, steps).value;
            (forall i :: 0 <= i < |s.children| == n ==> s.children[i] == Reaped) && s.numLive == 0
            && |s.children| == n && s.sigCnt <= n && (n > 0 ==> s.sigCnt >= 1)
  {
    RunKeeps(n, steps);
    var s := Run(n, steps).value;
    CountZero(s.children, Reaped);
    CountZero(s.children, Zombie);
    assert Count(s.children, Reaped) == n;
  }

  // ---------- progress ----------

  function Rank(pc: Pc): nat {
    match pc
    case Forking(_) => 5
    case Reaping => 4
    case Leaving => 3
    case Test => 2
    case Suspended => 1
    case Done => 0
  }

  /** Deaths and forks still to come, then dead children to reap, then the pending signal, then the
      place of the parent: each move makes this smaller, so every run ends. */
  predicate Closer(t: State, s: State) {
    var lifeT := 2 * Count(t.children, Unborn) + Count(t.children, Alive);
    var lifeS := 2 * Count(s.children, Unborn) + Count(s.children, Alive);
    || lifeT < lifeS
    || (lifeT == lifeS && Count(t.children, Zombie) < Count(s.children, Zombie))
    || (lifeT == lifeS && Count(t.children, Zombie) == Count(s.children, Zombie)
        && (Bit(t.pending) < Bit(s.pending) || (t.pending == s.pending && Rank(t.pc) < Rank(s.pc))))
  }

  lemma EveryMoveIsProgress(s: State, step: Step)
    requires Inv(s) && Apply(s, step).Some?
    ensures Closer(Apply(s, step).value, s)
  {
    var t, i := Apply(s, step).value, Touched(s, step);
    if i < |s.children| {
      CountsUpdate(s.children, i, t.children[i]);
      assert s.children[i := t.children[i]] == t.children || s.children == t.children;
    }
    hide Count, CountOk, NoneForgotten;
  }
}
