/** Producers adding units under a mutex, and the main thread that consumes them, asleep on a condition
    variable while there are none. The three counters are C ints and wrap around. */
module ProducerConsumer {
  import opened Common

  datatype ProducerPc = Unborn | Producing | Holding | Signalling | Ended

  /** `cnt` is the producer's argument, which need not be positive, `left` the units it has still to make. */
  datatype Producer = Producer(cnt: Int, left: int, pc: ProducerPc)

  datatype MainPc = Creating(i: nat) | Lock | Check | Waiting | Woken | Consume | Unlock | Test | Exit

  datatype Holder = Nobody | Consumer | Maker(i: nat)

  datatype State = State(
    producers: seq<Producer>, main: MainPc, mutex: Holder, avail: Int, numConsumed: Int, totRequired: Int, done: bool)

  datatype Move = MainMoves | ProducerMoves(i: nat) | Spurious

  function Start(counts: seq<Int>): State {
    State(seq(|counts|, i requires 0 <= i < |counts| => Producer(counts[i], counts[i], Unborn)),
          Creating(0), Nobody, 0, 0, 0, false)
  }

  /** The next move of the main thread; None while it is blocked or asleep. */
  function MainMove(s: State): Option<State> {
    match s.main
    case Creating(i) =>
      if i < |s.producers| then
        var p := s.producers[i];
        Some(s.(totRequired := Wrap(s.totRequired + p.cnt), main := Creating(i + 1),
                producers := s.producers[i := p.(pc := if p.left > 0 then Producing else Ended)]))
      else Some(s.(main := Lock))
    case Lock => if s.mutex == Nobody then Some(s.(mutex := Consumer, main := Check)) else None
    case Check => if s.avail == 0 then Some(s.(mutex := Nobody, main := Waiting)) else Some(s.(main := Consume))
    case Waiting => None
    case Woken => if s.mutex == Nobody then Some(s.(mutex := Consumer, main := Check)) else None
    case Consume =>
      if s.avail > 0 then
        var n := Wrap(s.numConsumed + 1);
        Some(s.(numConsumed := n, avail := s.avail - 1, done := n >= s.totRequired))
      else Some(s.(main := Unlock))
    case Unlock => Some(s.(mutex := Nobody, main := Test))
    case Test => Some(s.(main := if s.done then Exit else Lock))
    case Exit => None
  }

  /** A producer's next move: take the mutex and add a unit, release it, and only then signal. */
  function ProducerMove(s: State, i: nat): Option<State>
    requires i < |s.producers|
  {
    var p := s.producers[i];
    match p.pc
    case Producing =>
      if s.mutex == Nobody then
        var q := p.(pc := Holding, left := p.left - 1);
        Some(s.(mutex := Maker(i), avail := Wrap(s.avail + 1), producers := s.producers[i := q]))
      else None
    case Holding => Some(s.(mutex := Nobody, producers := s.producers[i := p.(pc := Signalling)]))
    case Signalling =>
      Some(s.(main := if s.main == Waiting then Woken else s.main,
              producers := s.producers[i := p.(pc := if p.left > 0 then Producing else Ended)]))
    case _ => None
  }

  /** After `exit` no thread moves. A wait may also end without a signal. */
  function Apply(s: State, m: Move): Option<State> {
    if s.main == Exit then None
    else
      match m
      case MainMoves => MainMove(s)
      case ProducerMoves(i) => if i < |s.producers| then ProducerMove(s, i) else None
      case Spurious => if s.main == Waiting then Some(s.(main := Woken)) else None
  }

  function Run(counts: seq<Int>, moves: seq<Move>): State
    decreases |moves|
  {
    if moves == [] then Start(counts)
    else
      var s := Run(counts, moves[..|moves| - 1]);
      match Apply(s, moves[|moves| - 1])
      case Some(t) => t
      case None => s
  }

  // ---------- sums over the producers ----------

  function Total(ps: seq<Producer>, w: Producer -> int): int {
    if ps == [] then 0 else Total(ps[..|ps| - 1], w) + w(ps[|ps| - 1])
  }

  lemma {:induction false} TotalUpdate(ps: seq<Producer>, i: nat, p: Producer, w: Producer -> int)
    requires i < |ps|
    ensures Total(ps[i := p], w) == Total(ps, w) - w(ps[i]) + w(p)
  {
    var last := |ps| - 1;
    if i < last {
      assert ps[i := p][..last] == ps[..last][i := p];
      TotalUpdate(ps[..last], i, p, w);
    } else {
      assert ps[i := p][..last] == ps[..last];
    }
  }

  lemma {:induction false} TotalCompares(ps: seq<Producer>, v: Producer -> int, w: Producer -> int)
    requires forall p :: p in ps ==> v(p) <= w(p)
    ensures Total(ps, v) <= Total(ps, w)
    ensures Total(ps, v) == Total(ps, w) ==> forall p :: p in ps ==> v(p) == w(p)
  {
    if ps != [] {
      TotalCompares(ps[..|ps| - 1], v, w);
      assert forall p :: p in ps ==> p in ps[..|ps| - 1] || p == ps[|ps| - 1];
    }
  }

  function Plus(n: int): int {
    if n > 0 then n else 0
  }

  const TO_MAKE: Producer -> int := (p: Producer) => Plus(p.left)
  const SHARE: Producer -> int := (p: Producer) => Plus(p.cnt)
  const ASKED: Producer -> int := (p: Producer) => p.cnt

  // ---------- what every interleaving keeps ----------

  ghost predicate MutexHeld(s: State) {
    && (s.mutex == Consumer <==> s.main in {Check, Consume, Unlock})
    && (s.mutex.Maker? ==> s.mutex.i < |s.producers|)
    && forall i :: 0 <= i < |s.producers| ==> (s.producers[i].pc == Holding <==> s.mutex == Maker(i))
  }

  ghost predicate ProducersFit(s: State) {
    forall i :: 0 <= i < |s.producers| ==>
      var p := s.producers[i];
      && (s.main.Creating? && i >= s.main.i ==> p.pc == Unborn && p.left == p.cnt)
      && (p.pc == Unborn ==> s.main.Creating? && i >= s.main.i)
      && (p.pc == Producing ==> p.left > 0)
      && (p.pc in {Holding, Signalling} ==> p.left >= 0)
      && (p.pc == Ended ==> p.left <= 0)
  }

  ghost predicate UnitsAddUp(s: State) {
    && s.avail >= 0 && s.numConsumed >= 0 && Total(s.producers, SHARE) <= INT_MAX
    && s.numConsumed + s.avail + Total(s.producers, TO_MAKE) == Total(s.producers, SHARE)
  }

  ghost predicate RequirementFits(s: State) {
    if s.main.Creating? then
      s.main.i <= |s.producers| && s.totRequired == Wrap(Total(s.producers[..s.main.i], ASKED)) && s.numConsumed == 0
    else s.totRequired == Wrap(Total(s.producers, ASKED))
  }

  ghost predicate DoneFits(s: State) {
    && s.done == (s.numConsumed > 0 && s.numConsumed >= s.totRequired)
    && (s.main in {Lock, Check, Waiting, Woken} || s.main.Creating? ==> !s.done)
    && (s.main == Exit ==> s.done)
    && (s.main == Consume ==> s.numConsumed > 0 || s.avail > 0)
    && (s.main in {Unlock, Test} ==> s.numConsumed > 0)
  }

  /** No wake-up is lost: if the main thread sleeps although there is a unit, its signal is on the way. */
  ghost predicate SignalComes(s: State) {
    s.main == Waiting && s.avail > 0 ==>
      exists i :: 0 <= i < |s.producers| && s.producers[i].pc in {Holding, Signalling}
  }

  ghost predicate Sound(s: State) {
    MutexHeld(s) && ProducersFit(s) && UnitsAddUp(s) && RequirementFits(s) && DoneFits(s) && SignalComes(s)
  }

  lemma MainKeepsSums(s: State)
    requires UnitsAddUp(s) && RequirementFits(s) && MainMove(s).Some?
    ensures UnitsAddUp(MainMove(s).value) && RequirementFits(MainMove(s).value)
  {
    hide Total, Wrap;
    ToMakePositive(s.producers);
    if s.main.Creating? && s.main.i < |s.producers| {
      var t, i := MainMove(s).value, s.main.i;
      var p := t.producers[i];
      TotalUpdate(s.producers, i, p, TO_MAKE);
      TotalUpdate(s.producers, i, p, SHARE);
      OneMoreAsked(s.producers, t.producers, i);
    } else if s.main.Creating? {
      assert s.producers[..s.main.i] == s.producers;
    }
  }

  lemma OneMoreAsked(ps: seq<Producer>, qs: seq<Producer>, i: nat)
    requires i < |ps| == |qs| && qs[..i] == ps[..i] && qs[i].cnt == ps[i].cnt
    ensures Wrap(Wrap(Total(ps[..i], ASKED)) + ps[i].cnt) == Wrap(Total(qs[..i + 1], ASKED))
  {
    WrapAdds(Total(ps[..i], ASKED), ps[i].cnt);
    hide Wrap;
    assert qs[..i + 1][..i] == ps[..i];
  }

  lemma MainKeepsMutex(s: State)
    requires MutexHeld(s) && ProducersFit(s) && MainMove(s).Some?
    ensures MutexHeld(MainMove(s).value)
  {
  }

  lemma MainKeepsOrder(s: State)
    requires ProducersFit(s) && s.avail >= 0 && SignalComes(s) && MainMove(s).Some?
    ensures var t := MainMove(s).value; ProducersFit(t) && SignalComes(t)
  {
  }

  lemma MainKeepsDone(s: State)
    requires UnitsAddUp(s) && RequirementFits(s) && DoneFits(s) && MainMove(s).Some?
    ensures DoneFits(MainMove(s).value)
  {
    hide Total;
    ToMakePositive(s.producers);
  }

  lemma ProducerKeepsSums(s: State, i: nat)
    requires ProducersFit(s) && UnitsAddUp(s) && RequirementFits(s) && i < |s.producers| && ProducerMove(s, i).Some?
    ensures UnitsAddUp(ProducerMove(s, i).value) && RequirementFits(ProducerMove(s, i).value)
  {
    hide Total;
    var t := ProducerMove(s, i).value;
    var p := t.producers[i];
    ToMakePositive(t.producers);
    TotalUpdate(s.producers, i, p, TO_MAKE);
    TotalUpdate(s.producers, i, p, SHARE);
    TotalUpdate(s.producers, i, p, ASKED);
    if s.main.Creating? {
      assert i < s.main.i;
      assert t.producers[..s.main.i] == s.producers[..s.main.i][i := p];
      TotalUpdate(s.producers[..s.main.i], i, p, ASKED);
    }
  }

  lemma ProducerKeepsOrder(s: State, i: nat)
    requires MutexHeld(s) && ProducersFit(s) && SignalComes(s) && i < |s.producers| && ProducerMove(s, i).Some?
    ensures var t := ProducerMove(s, i).value; MutexHeld(t) && ProducersFit(t) && SignalComes(t)
  {
    hide Wrap;
    var t := ProducerMove(s, i).value;
    assert t.producers[i].pc in {Holding, Signalling} || t.main != Waiting;
  }

  lemma ProducerKeepsDone(s: State, i: nat)
    requires MutexHeld(s) && DoneFits(s) && i < |s.producers| && ProducerMove(s, i).Some?
    ensures DoneFits(ProducerMove(s, i).value)
  {
  }

  lemma ApplySound(s: State, m: Move)
    requires Sound(s) && Apply(s, m).Some?
    ensures Sound(Apply(s, m).value)
  {
    match m
    case MainMoves =>
      hide MutexHeld, ProducersFit, RequirementFits, DoneFits, SignalComes, MainMove;
      MainKeepsSums(s);
      MainKeepsMutex(s);
      MainKeepsOrder(s);
      MainKeepsDone(s);
    case ProducerMoves(i) =>
      hide MutexHeld, ProducersFit, RequirementFits, DoneFits, SignalComes, ProducerMove, UnitsAddUp;
      ProducerKeepsSums(s, i);
      ProducerKeepsOrder(s, i);
      ProducerKeepsDone(s, i);
    case Spurious =>
      hide Total;
  }

  /** Units that will be produced, and the sum of the arguments. */
  function ToProduce(counts: seq<Int>): int {
    Total(Start(counts).producers, SHARE)
  }

  function Requested(counts: seq<Int>): int {
    Total(Start(counts).producers, ASKED)
  }

  lemma StartSound(counts: seq<Int>)
    requires ToProduce(counts) <= INT_MAX
    ensures Sound(Start(counts))
  {
    var ps := Start(counts).producers;
    SameTotals(ps);
    assert ps[..0] == [];
  }

  lemma {:induction false} SameTotals(ps: seq<Producer>)
    requires forall p :: p in ps ==> p.left == p.cnt
    ensures Total(ps, TO_MAKE) == Total(ps, SHARE)
  {
    if ps != [] {
      SameTotals(ps[..|ps| - 1]);
      assert ps[|ps| - 1] in ps;
    }
  }

  /** The arguments never change. */
  ghost predicate Counts(s: State, counts: seq<Int>) {
    |s.producers| == |counts| && forall i :: 0 <= i < |counts| ==> s.producers[i].cnt == counts[i]
  }

  lemma {:induction false} RunCounts(counts: seq<Int>, moves: seq<Move>)
    ensures var s := Run(counts, moves);
            Counts(s, counts) && Total(s.producers, SHARE) == ToProduce(counts)
            && Total(s.producers, ASKED) == Requested(counts)
    decreases |moves|
  {
    hide Wrap, Total;
    if moves != [] {
      RunCounts(counts, moves[..|moves| - 1]);
    }
    CountsDecide(Run(counts, moves).producers, Start(counts).producers);
  }

  lemma {:induction false} CountsDecide(ps: seq<Producer>, qs: seq<Producer>)
    requires |ps| == |qs| && forall i :: 0 <= i < |ps| ==> ps[i].cnt == qs[i].cnt
    ensures Total(ps, SHARE) == Total(qs, SHARE) && Total(ps, ASKED) == Total(qs, ASKED)
  {
    if ps != [] {
      CountsDecide(ps[..|ps| - 1], qs[..|qs| - 1]);
    }
  }

  lemma {:induction false} RunSound(counts: seq<Int>, moves: seq<Move>)
    requires ToProduce(counts) <= INT_MAX
    ensures Sound(Run(counts, moves))
    decreases |moves|
  {
    hide Sound, Total, ToProduce;
    if moves == [] {
      StartSound(counts);
    } else {
      var s, m := Run(counts, moves[..|moves| - 1]), moves[|moves| - 1];
      RunSound(counts, moves[..|moves| - 1]);
      if Apply(s, m).Some? {
        ApplySound(s, m);
      }
    }
  }

  // ---------- when the program ends ----------

  /** Every unit made so far has been consumed or is available. */
  predicate UnitsConserved(counts: seq<Int>, moves: seq<Move>) {
    var s := Run(counts, moves);
    s.avail >= 0 && s.numConsumed + s.avail + Total(s.producers, TO_MAKE) == ToProduce(counts)
  }

  /** Units are neither lost nor consumed twice, in every run, if and only if the units that the arguments ask
      for are no more than an int can count. */
  lemma UnitsConservedExactly(counts: seq<Int>)
    ensures (forall moves :: UnitsConserved(counts, moves)) <==> ToProduce(counts) <= INT_MAX
  {
    hide Run, Total, ToProduce, Sound;
    if ToProduce(counts) <= INT_MAX {
      forall moves ensures UnitsConserved(counts, moves) {
        RunSound(counts, moves);
        RunCounts(counts, moves);
        SoundUnits(Run(counts, moves));
      }
    } else {
      var moves := Uncounted(counts);
      assert !UnitsConserved(counts, moves);
    }
  }

  /** The main thread leaves only when it has counted as many units as it requires; with a right count, only
      when it has had one, and at least the sum of the arguments. */
  lemma ExitHasEnough(counts: seq<Int>, moves: seq<Move>)
    requires Run(counts, moves).main == Exit
    ensures var s := Run(counts, moves);
            && s.numConsumed >= Wrap(Requested(counts))
            && (ToProduce(counts) <= INT_MAX ==>
                  s.numConsumed > 0 && (INT_MIN <= Requested(counts) ==> s.numConsumed >= Requested(counts)))
  {
    var s := Run(counts, moves);
    hide Run, Total, ToProduce, Requested, Sound, Wrap;
    RunRequires(counts, moves);
    if ToProduce(counts) <= INT_MAX {
      RunSound(counts, moves);
      RunCounts(counts, moves);
      SoundUnits(s);
      ShareAtLeastAsked(s);
    }
  }

  ghost predicate Requires(counts: seq<Int>, s: State) {
    && |s.producers| == |counts|
    && (if s.main.Creating? then
          && s.main.i <= |counts| && !s.done
          && s.totRequired == Wrap(Total(Start(counts).producers[..s.main.i], ASKED))
        else
          s.totRequired == Wrap(Requested(counts)))
    && (s.done ==> s.numConsumed >= s.totRequired)
    && (s.main == Exit ==> s.done)
  }

  lemma ApplyRequires(counts: seq<Int>, s: State, m: Move)
    requires Requires(counts, s) && Counts(s, counts) && Apply(s, m).Some?
    ensures Requires(counts, Apply(s, m).value)
  {
    hide Total, Wrap;
    var ps := Start(counts).producers;
    if s.main.Creating? && s.main.i < |counts| {
      OneMoreAsked(ps, ps, s.main.i);
    } else if s.main.Creating? {
      assert ps[..|ps|] == ps;
    }
  }

  lemma {:induction false} RunRequires(counts: seq<Int>, moves: seq<Move>)
    ensures Requires(counts, Run(counts, moves))
    decreases |moves|
  {
    if moves == [] {
      assert Start(counts).producers[..0] == [];
    } else {
      var init, m := moves[..|moves| - 1], moves[|moves| - 1];
      hide Requires, Apply, Total, Counts;
      RunRequires(counts, init);
      RunCounts(counts, init);
      if Apply(Run(counts, init), m).Some? {
        ApplyRequires(counts, Run(counts, init), m);
      }
    }
  }

  lemma SoundUnits(s: State)
    requires Sound(s)
    ensures UnitsAddUp(s) && RequirementFits(s) && DoneFits(s)
  {
  }

  /** All producers have been created and the main thread has not looked yet. */
  ghost predicate Loaded(s: State) {
    && s.main == Lock && s.mutex == Nobody && s.avail >= 0 && s.numConsumed == 0
    && (forall i :: 0 <= i < |s.producers| ==>
          s.producers[i].pc == if s.producers[i].left > 0 then Producing else Ended)
    && s.avail + Total(s.producers, TO_MAKE) == Total(s.producers, SHARE)
  }

  lemma RunStep(counts: seq<Int>, moves: seq<Move>, m: Move)
    requires Apply(Run(counts, moves), m).Some?
    ensures Run(counts, moves + [m]) == Apply(Run(counts, moves), m).value
  {
    assert (moves + [m])[..|moves|] == moves;
    hide Apply;
  }

  /** The producers may all run before the consumer does: then the available units are counted past the
      largest int. */
  lemma Uncounted(counts: seq<Int>) returns (moves: seq<Move>)
    requires ToProduce(counts) > INT_MAX
    ensures !UnitsConserved(counts, moves)
  {
    moves := CreateAll(counts, |counts|);
    hide Run, Wrap, Total;
    RunCounts(counts, moves);
    RunStep(counts, moves, MainMoves);
    moves := moves + [MainMoves];
    SameTotals(Run(counts, moves).producers);
    moves := MakeAll(counts, moves);
  }

  /** The first `n` producers have been created, nothing else has happened. */
  lemma {:induction false} CreateAll(counts: seq<Int>, n: nat) returns (moves: seq<Move>)
    requires n <= |counts|
    ensures var s := Run(counts, moves);
            && s.main == Creating(n) && s.mutex == Nobody && s.avail == s.numConsumed == 0 && |s.producers| == |counts|
            && forall i :: 0 <= i < |counts| ==>
                 && s.producers[i].cnt == s.producers[i].left == counts[i]
                 && (i < n ==> s.producers[i].pc == if s.producers[i].left > 0 then Producing else Ended)
  {
    if n == 0 {
      return [];
    }
    moves := CreateAll(counts, n - 1);
    hide Run, Wrap;
    RunStep(counts, moves, MainMoves);
    moves := moves + [MainMoves];
  }

  lemma {:induction false} MakeAll(counts: seq<Int>, before: seq<Move>) returns (moves: seq<Move>)
    requires Loaded(Run(counts, before)) && ToProduce(counts) > INT_MAX
    ensures !UnitsConserved(counts, moves)
    decreases INT_MAX - Run(counts, before).avail
  {
    hide Run, Total, ToProduce, Wrap, Loaded, Apply;
    var s := Run(counts, before);
    RunCounts(counts, before);
    var i := OneProducing(s);
    MakeOne(s, i);
    RunStep(counts, before, ProducerMoves(i));
    moves := before + [ProducerMoves(i)];
    if s.avail < INT_MAX {
      RunStep(counts, moves, ProducerMoves(i));
      moves := moves + [ProducerMoves(i)];
      RunStep(counts, moves, ProducerMoves(i));
      moves := MakeAll(counts, moves + [ProducerMoves(i)]);
    }
  }

  lemma OneProducing(s: State) returns (i: nat)
    requires Loaded(s) && Total(s.producers, SHARE) > INT_MAX
    ensures i < |s.producers| && s.producers[i].pc == Producing
  {
    if forall j :: 0 <= j < |s.producers| ==> s.producers[j].left <= 0 {
      AllMade(s.producers);
      hide Total;
      assert false;
    }
    i :| i < |s.producers| && s.producers[i].left > 0;
  }

  /** The three moves that make a unit while the main thread waits for the mutex. */
  lemma MakeOne(s: State, i: nat)
    requires Loaded(s) && i < |s.producers| && s.producers[i].pc == Producing
    ensures var a := Apply(s, ProducerMoves(i));
            && a.Some? && (s.avail == INT_MAX ==> a.value.avail < 0)
            && (s.avail < INT_MAX ==>
                  var b := Apply(a.value, ProducerMoves(i));
                  && b.Some?
                  && var c := Apply(b.value, ProducerMoves(i));
                     c.Some? && Loaded(c.value) && c.value.avail == s.avail + 1)
  {
    hide Wrap, Total;
    if s.avail < INT_MAX {
      var a := Apply(s, ProducerMoves(i)).value;
      var c := Apply(Apply(a, ProducerMoves(i)).value, ProducerMoves(i)).value;
      var p := c.producers[i];
      assert c.producers == s.producers[i := p];
      TotalUpdate(s.producers, i, p, TO_MAKE);
      TotalUpdate(s.producers, i, p, SHARE);
    }
  }

  ghost predicate Stuck(s: State) {
    s.main != Exit && Still(s)
  }

  /** Nothing can happen but a spurious wake-up. */
  ghost predicate Still(s: State) {
    forall m :: m != Spurious ==> Apply(s, m) == None
  }

  lemma StuckMutex(s: State)
    requires MutexHeld(s) && Stuck(s)
    ensures s.mutex == Nobody
  {
    assert Apply(s, MainMoves) == None;
    assert s.mutex.Maker? ==> Apply(s, ProducerMoves(s.mutex.i)) == None;
  }

  lemma StuckShape(s: State)
    requires MutexHeld(s) && ProducersFit(s) && SignalComes(s) && s.avail >= 0 && Stuck(s)
    ensures s.main == Waiting && s.avail == 0
    ensures forall i :: 0 <= i < |s.producers| ==> s.producers[i].left <= 0
  {
    StuckMutex(s);
    assert Apply(s, MainMoves) == None;
    assert s.main == Waiting;
    forall i | 0 <= i < |s.producers| ensures s.producers[i].pc == Ended {
      assert Apply(s, ProducerMoves(i)) == None;
    }
  }

  /** The requirement the main thread computes is the sum of the arguments if and only if that is an int. */
  lemma RequirementExactly(counts: seq<Int>, moves: seq<Move>)
    requires !Run(counts, moves).main.Creating?
    ensures Run(counts, moves).totRequired == Requested(counts) <==> INT_MIN <= Requested(counts) <= INT_MAX
  {
    RunRequires(counts, moves);
  }

  /** No wake-up is lost: a run has come to a standstill by exiting if and only if there was a unit to consume
      and the requirement, wrapped around or not, is no more than the units made. */
  lemma StandstillExactly(counts: seq<Int>, moves: seq<Move>)
    requires ToProduce(counts) <= INT_MAX && Still(Run(counts, moves))
    ensures Run(counts, moves).main == Exit <==> ToProduce(counts) > 0 && Wrap(Requested(counts)) <= ToProduce(counts)
  {
    hide Still, Run, Total, ToProduce, Requested, Wrap, Sound;
    RunSound(counts, moves);
    RunCounts(counts, moves);
    var s := Run(counts, moves);
    SoundUnits(s);
    ToMakePositive(s.producers);
    if s.main != Exit {
      SoundOrder(s);
      StuckShape(s);
      AllMade(s.producers);
    }
  }

  lemma SoundOrder(s: State)
    requires Sound(s)
    ensures MutexHeld(s) && ProducersFit(s) && SignalComes(s) && s.avail >= 0
  {
  }

  /** With a sum that is an int: a run that has come to a standstill without exiting has consumed every unit,
      and there was none to produce. */
  lemma StuckMeansNothingToProduce(counts: seq<Int>, moves: seq<Move>)
    requires ToProduce(counts) <= INT_MAX && INT_MIN <= Requested(counts) && Stuck(Run(counts, moves))
    ensures forall i :: 0 <= i < |counts| ==> counts[i] <= 0
  {
    var ps := Start(counts).producers;
    hide Still, Run, Total, Wrap;
    ShareAtLeastAsked(Start(counts));
    StandstillExactly(counts, moves);
    forall i | 0 <= i < |counts| ensures counts[i] <= 0 {
      NoShare(ps, i);
    }
  }

  lemma {:induction false} AllMade(ps: seq<Producer>)
    requires forall i :: 0 <= i < |ps| ==> ps[i].left <= 0
    ensures Total(ps, TO_MAKE) == 0
  {
    if ps != [] {
      AllMade(ps[..|ps| - 1]);
    }
  }

  lemma ShareAtLeastAsked(s: State)
    ensures Total(s.producers, ASKED) <= Total(s.producers, SHARE)
  {
    TotalCompares(s.producers, ASKED, SHARE);
  }

  lemma {:induction false} NoShare(ps: seq<Producer>, i: nat)
    requires i < |ps| && Total(ps, SHARE) <= 0
    ensures ps[i].cnt <= 0
  {
    SharesPositive(ps[..|ps| - 1]);
    if i < |ps| - 1 {
      NoShare(ps[..|ps| - 1], i);
    }
  }

  lemma {:induction false} SharesPositive(ps: seq<Producer>)
    ensures Total(ps, SHARE) >= 0
  {
    if ps != [] {
      SharesPositive(ps[..|ps| - 1]);
    }
  }

  /** And if there is none to produce the program never exits. */
  lemma NothingToProduceNeverExits(counts: seq<Int>, moves: seq<Move>)
    requires forall i :: 0 <= i < |counts| ==> counts[i] <= 0
    ensures Run(counts, moves).main != Exit
  {
    var s := Run(counts, moves);
    NoneToShare(Start(counts).producers);
    hide Run, Total, Sound;
    RunSound(counts, moves);
    RunCounts(counts, moves);
    SoundUnits(s);
    ToMakePositive(s.producers);
  }

  lemma {:induction false} NoneToShare(ps: seq<Producer>)
    requires forall i :: 0 <= i < |ps| ==> ps[i].cnt <= 0
    ensures Total(ps, SHARE) == 0
  {
    if ps != [] {
      NoneToShare(ps[..|ps| - 1]);
    }
  }

  lemma {:induction false} ToMakePositive(ps: seq<Producer>)
    ensures Total(ps, TO_MAKE) >= 0
  {
    if ps != [] {
      ToMakePositive(ps[..|ps| - 1]);
    }
  }

  /** The consumer lets go of the mutex only when it has taken every unit there is. */
  lemma {:induction false} ConsumerTakesAll(counts: seq<Int>, moves: seq<Move>)
    requires ToProduce(counts) <= INT_MAX && Run(counts, moves).main == Unlock
    ensures Run(counts, moves).avail == 0
    decreases |moves|
  {
    hide Total, ToProduce, Sound;
    if moves != [] {
      var init, m := moves[..|moves| - 1], moves[|moves| - 1];
      var s := Run(counts, init);
      RunSound(counts, init);
      SoundUnits(s);
      SoundOrder(s);
      if s.main == Unlock {
        ConsumerTakesAll(counts, init);
      }
    }
  }

  /** It goes to sleep only when there is none, and while it sleeps a unit that is made has its signal on the
      way. */
  lemma ConsumerSleepsRightly(counts: seq<Int>, moves: seq<Move>, m: Move)
    requires ToProduce(counts) <= INT_MAX
    ensures var s, t := Run(counts, moves), Run(counts, moves + [m]);
            && (s.main != Waiting && t.main == Waiting ==> t.avail == 0)
            && (s.main == Waiting && s.avail > 0 ==>
                  exists i :: 0 <= i < |s.producers| && s.producers[i].pc in {Holding, Signalling})
  {
    assert (moves + [m])[..|moves|] == moves;
    hide Total, ToProduce, Sound;
    RunSound(counts, moves);
    SoundOrder(Run(counts, moves));
  }

  // ---------- progress ----------

  /** Moves a producer has still to make: three a unit, and one to be created. */
  const MOVES: Producer -> int := (p: Producer) =>
    3 * Plus(p.left) + match p.pc {
      case Unborn => 1
      case Holding => 2
      case Signalling => 1
      case _ => 0
    }

  function Rank(s: State): nat {
    match s.main
    case Creating(i) => 9
    case Lock => 4
    case Woken => 4
    case Check => 3
    case Waiting => 0
    case Consume => if s.avail > 0 then 1 else 7
    case Unlock => 6
    case Test => 5
    case Exit => 0
  }

  lemma {:induction false} MovesPositive(ps: seq<Producer>)
    ensures Total(ps, MOVES) >= 0
  {
    if ps != [] {
      MovesPositive(ps[..|ps| - 1]);
    }
  }

  /** Every move that is not a spurious wake-up leaves fewer moves for the producers, or the same and less for
      the main thread: so every run ends, and it ends in exit if and only if some count is positive. */
  lemma EveryMoveIsProgress(s: State, m: Move)
    requires Sound(s) && m != Spurious && Apply(s, m).Some?
    ensures var t := Apply(s, m).value;
            || 0 <= Total(t.producers, MOVES) < Total(s.producers, MOVES)
            || (t.producers == s.producers && 0 <= 10 * t.avail + Rank(t) < 10 * s.avail + Rank(s))
  {
    hide Total, RequirementFits, SignalComes, Sound, Wrap;
    var t := Apply(s, m).value;
    MovesPositive(t.producers);
    Unfolded(s);
    if m.ProducerMoves? {
      TotalUpdate(s.producers, m.i, t.producers[m.i], MOVES);
    } else if s.main.Creating? && s.main.i < |s.producers| {
      TotalUpdate(s.producers, s.main.i, t.producers[s.main.i], MOVES);
    }
  }

  lemma Unfolded(s: State)
    requires Sound(s)
    ensures ProducersFit(s) && 0 <= s.avail && s.numConsumed + s.avail + Total(s.producers, TO_MAKE) <= INT_MAX
  {
  }
}
