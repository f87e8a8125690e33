/** Two processes passing one signal to and fro, each blocked except while it waits. */
module PingPong {
  import opened Common

  datatype Pc = Sending | Suspended | Exited

  /** `pending` is the one bit the kernel keeps for a blocked signal; `sent`, `caught` and `lost` count the
      signals sent to a process, handled by it, and merged into one already pending. */
  datatype Process = Process(pc: Pc, scnt: nat, pending: bool, sent: nat, caught: nat, lost: nat)

  datatype State = State(parent: Process, child: Process)

  datatype Move = ParentMoves | ChildMoves

  /** After the fork, with the signal blocked in both. */
  function Start(numSigs: nat): State {
    State(Process(if numSigs > 0 then Suspended else Exited, 0, false, 0, 0, 0),
          Process(if numSigs > 0 then Sending else Exited, 0, false, 0, 0, 0))
  }

  function Kill(p: Process): Process {
    p.(pending := true, sent := p.sent + 1, lost := if p.pending then p.lost + 1 else p.lost)
  }

  /** `sigsuspend` returns once the handler has run, with the signal blocked again. */
  function Catch(p: Process): Process {
    p.(pending := false, caught := p.caught + 1)
  }

  /** The next round, or the end of the loop. */
  function EndRound(p: Process, numSigs: nat, first: Pc): Process {
    p.(scnt := p.scnt + 1, pc := if p.scnt + 1 < numSigs then first else Exited)
  }

  /** One move; None while the process waits for a signal or has exited. */
  function Apply(numSigs: nat, s: State, m: Move): Option<State> {
    match m
    case ChildMoves =>
      (match s.child.pc
       case Sending => Some(State(Kill(s.parent), s.child.(pc := Suspended)))
       case Suspended => if s.child.pending then Some(s.(child := EndRound(Catch(s.child), numSigs, Sending))) else None
       case Exited => None)
    case ParentMoves =>
      (match s.parent.pc
       case Suspended => if s.parent.pending then Some(s.(parent := Catch(s.parent).(pc := Sending))) else None
       case Sending => Some(State(EndRound(s.parent, numSigs, Suspended), Kill(s.child)))
       case Exited => None)
  }

  function Run(numSigs: nat, moves: seq<Move>): State
    decreases |moves|
  {
    if moves == [] then Start(numSigs)
    else
      var s := Run(numSigs, moves[..|moves| - 1]);
      match Apply(numSigs, s, moves[|moves| - 1])
      case Some(t) => t
      case None => s
  }

  /** Where the one signal, or the turn to send it, is. */
  ghost predicate Sound(numSigs: nat, s: State) {
    var p, c := s.parent, s.child;
    && p.lost == 0 && c.lost == 0
    && !(p.pending && c.pending)
    && p.sent == p.caught + (if p.pending then 1 else 0)
    && c.sent == c.caught + (if c.pending then 1 else 0)
    && c.sent == p.scnt && c.caught == c.scnt
    && p.caught == p.scnt + (if p.pc == Sending then 1 else 0)
    && p.sent == c.scnt + (if c.pc == Suspended then 1 else 0)
    && p.scnt <= numSigs && c.scnt <= numSigs
    && (p.pc == Exited <==> p.scnt == numSigs) && (c.pc == Exited <==> c.scnt == numSigs)
    && (c.pc == Sending ==> !c.pending && !p.pending && p.pc == Suspended)
    && (p.pc == Sending ==> !c.pending && !p.pending && c.pc == Suspended)
  }

  lemma ApplySound(numSigs: nat, s: State, m: Move)
    requires Sound(numSigs, s) && Apply(numSigs, s, m).Some?
    ensures Sound(numSigs, Apply(numSigs, s, m).value)
  {
  }

  lemma {:induction false} RunSound(numSigs: nat, moves: seq<Move>)
    ensures Sound(numSigs, Run(numSigs, moves))
    decreases |moves|
  {
    hide Sound, Apply;
    if moves == [] {
      StartSound(numSigs);
    } else {
      var s, m := Run(numSigs, moves[..|moves| - 1]), moves[|moves| - 1];
      RunSound(numSigs, moves[..|moves| - 1]);
      if Apply(numSigs, s, m).Some? {
        ApplySound(numSigs, s, m);
      }
    }
  }

  lemma StartSound(numSigs: nat)
    ensures Sound(numSigs, Start(numSigs))
  {
  }

  /** In every interleaving at most one signal is outstanding and none is merged into another. */
  lemma NoSignalIsLost(numSigs: nat, moves: seq<Move>)
    ensures var s := Run(numSigs, moves);
            s.parent.lost == s.child.lost == 0 && !(s.parent.pending && s.child.pending)
  {
    RunSound(numSigs, moves);
  }

  /** Moves left: four in a round, two of each process. */
  function MovesLeft(numSigs: nat, s: State): int {
    4 * numSigs - (s.parent.sent + s.parent.caught + s.child.sent + s.child.caught)
  }

  /** Until both have exited exactly one of them can move, and no move is wasted: every run of the program
      has exactly four moves for each round. */
  lemma ExactlyOneMoves(numSigs: nat, moves: seq<Move>)
    ensures var s := Run(numSigs, moves);
            && MovesLeft(numSigs, s) >= 0
            && (MovesLeft(numSigs, s) == 0 <==> s.parent.pc == s.child.pc == Exited)
            && (MovesLeft(numSigs, s) > 0 ==>
                  (Apply(numSigs, s, ParentMoves).Some? <==> !Apply(numSigs, s, ChildMoves).Some?))
            && (MovesLeft(numSigs, s) == 0 ==>
                  Apply(numSigs, s, ParentMoves) == Apply(numSigs, s, ChildMoves) == None)
            && forall m :: Apply(numSigs, s, m).Some? ==>
                  MovesLeft(numSigs, Apply(numSigs, s, m).value) == MovesLeft(numSigs, s) - 1
  {
    RunSound(numSigs, moves);
    hide Run;
  }

  /** Both sides finish exactly `numSigs` rounds: when they have exited, each has caught that many signals,
      and none is left pending. */
  lemma AllRoundsDone(numSigs: nat, moves: seq<Move>)
    requires var s := Run(numSigs, moves); s.parent.pc == s.child.pc == Exited
    ensures var s := Run(numSigs, moves);
            && s.parent.caught == s.child.caught == s.parent.scnt == s.child.scnt == numSigs
            && !s.parent.pending && !s.child.pending
  {
    RunSound(numSigs, moves);
  }

  /** Nobody signals a process that has exited. */
  lemma NoSignalToTheDead(numSigs: nat, moves: seq<Move>)
    ensures var s := Run(numSigs, moves);
            && (s.child.pc == Sending ==> s.parent.pc != Exited)
            && (s.parent.pc == Sending ==> s.child.pc != Exited)
  {
    RunSound(numSigs, moves);
  }
}
