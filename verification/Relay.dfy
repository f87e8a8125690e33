/** The select-driven relay between standard input, a socket and standard output. */
module Relay {

  import opened Common

  /** What the kernel answers. A read hands over as much of `bytes` as there is room for, none of them
      meaning end of input; a write takes at most the bytes offered. */
  datatype ReadAnswer = Got(bytes: string) | ReadAgain | ReadFails
  datatype WriteAnswer = Took(count: nat) | WriteAgain | WriteFails

  /** One return of `select` and the answers to the calls that may follow it. */
  datatype Turn = Turn(
    stdinReady: bool, sockReadable: bool, sockWritable: bool, stdoutReady: bool,
    stdinRead: ReadAnswer, sockWrite: WriteAnswer, sockRead: ReadAnswer, stdoutWrite: WriteAnswer)

  datatype Outcome = Going | SocketClosed | Failed

  /** One direction: the bytes waiting, and the space behind them up to the end of the buffer. */
  datatype Pipe = Pipe(waiting: string, room: nat, read: string, written: string)

  /** The relay as seen from outside: both directions, the end of input, and how often the write side of
      the socket was shut down. `Pipe.read` and `Pipe.written` are everything read and written so far. */
  datatype View = View(up: Pipe, down: Pipe, eof: bool, shutdowns: nat, outcome: Outcome)

  const EMPTY: Pipe := Pipe("", MAXLINE, "", "")
  const START: View := View(EMPTY, EMPTY, false, 0, Going)

  function Clip(bytes: string, room: nat): string {
    if |bytes| <= room then bytes else bytes[..room]
  }

  function Fill(p: Pipe, bytes: string): Pipe
    requires |bytes| <= p.room
  {
    Pipe(p.waiting + bytes, p.room - |bytes|, p.read + bytes, p.written)
  }

  /** Bytes leave at the front; only a pipe that has run empty gets its whole buffer back. */
  function Drain(p: Pipe, count: nat): Pipe {
    var n := if count < |p.waiting| then count else |p.waiting|;
    var left := p.waiting[n..];
    Pipe(left, if left == "" then MAXLINE else p.room, p.read, p.written + p.waiting[..n])
  }

  // ---------- the four stages of one turn ----------

  function ReadStdin(v: View, t: Turn): View {
    if v.eof || v.up.room == 0 || !t.stdinReady || t.stdinRead.ReadAgain? then v
    else if t.stdinRead.ReadFails? then v.(outcome := Failed)
    else
      var bytes := Clip(t.stdinRead.bytes, v.up.room);
      if bytes != "" then v.(up := Fill(v.up, bytes))
      else v.(eof := true, shutdowns := if v.up.waiting == "" then v.shutdowns + 1 else v.shutdowns)
  }

  /** `armed`: there were bytes waiting when `select` was called. */
  function WriteSocket(v: View, t: Turn, armed: bool): View {
    if v.outcome != Going || !armed || !t.sockWritable || v.up.waiting == "" || t.sockWrite.WriteAgain? then v
    else if t.sockWrite.WriteFails? then v.(outcome := Failed)
    else
      var up := Drain(v.up, t.sockWrite.count);
      v.(up := up, shutdowns := if up.waiting == "" && v.eof then v.shutdowns + 1 else v.shutdowns)
  }

  function ReadSocket(v: View, t: Turn): View {
    if v.outcome != Going || v.down.room == 0 || !t.sockReadable || t.sockRead.ReadAgain? then v
    else if t.sockRead.ReadFails? then v.(outcome := Failed)
    else
      var bytes := Clip(t.sockRead.bytes, v.down.room);
      if bytes != "" then v.(down := Fill(v.down, bytes)) else v.(outcome := SocketClosed)
  }

  function WriteStdout(v: View, t: Turn, armed: bool): View {
    if v.outcome != Going || !armed || !t.stdoutReady || v.down.waiting == "" || t.stdoutWrite.WriteAgain? then v
    else if t.stdoutWrite.WriteFails? then v.(outcome := Failed)
    else v.(down := Drain(v.down, t.stdoutWrite.count))
  }

  function Next(v: View, t: Turn): View {
    if v.outcome != Going then v
    else
      var (up, down) := (v.up.waiting != "", v.down.waiting != "");
      WriteStdout(ReadSocket(WriteSocket(ReadStdin(v, t), t, up), t), t, down)
  }

  function Run(v: View, turns: seq<Turn>): View
    decreases |turns|
  {
    if turns == [] then v else Next(Run(v, turns[..|turns| - 1]), turns[|turns| - 1])
  }

  // ---------- what every run keeps ----------

  /** Bytes written and bytes waiting are the bytes read, in order; an empty pipe has its whole buffer. */
  ghost predicate Conserves(p: Pipe) {
    && p.read == p.written + p.waiting
    && |p.waiting| + p.room <= MAXLINE
    && (p.waiting == "" ==> p.room == MAXLINE)
  }

  /** The socket has been shut down exactly if input has ended and all of it has been sent; then once. */
  ghost predicate Sound(v: View) {
    && Conserves(v.up) && Conserves(v.down)
    && v.shutdowns == if v.eof && v.up.waiting == "" then 1 else 0
  }

  lemma FillConserves(p: Pipe, bytes: string)
    requires Conserves(p) && |bytes| <= p.room && bytes != ""
    ensures Conserves(Fill(p, bytes)) && Fill(p, bytes).waiting != ""
  {
    assert p.read + bytes == p.written + (p.waiting + bytes);
  }

  lemma DrainConserves(p: Pipe, count: nat)
    requires Conserves(p)
    ensures Conserves(Drain(p, count))
  {
    var n := if count < |p.waiting| then count else |p.waiting|;
    assert p.waiting == p.waiting[..n] + p.waiting[n..];
    assert p.written + p.waiting == p.written + p.waiting[..n] + p.waiting[n..];
  }

  lemma ReadStdinSound(v: View, t: Turn)
    requires Sound(v)
    ensures Sound(ReadStdin(v, t))
  {
    hide Conserves, Fill;
    if t.stdinRead.Got? && v.up.room > 0 && Clip(t.stdinRead.bytes, v.up.room) != "" {
      FillConserves(v.up, Clip(t.stdinRead.bytes, v.up.room));
    }
  }

  lemma WriteSocketSound(v: View, t: Turn, armed: bool)
    requires Sound(v)
    ensures Sound(WriteSocket(v, t, armed))
  {
    hide Conserves, Drain;
    if t.sockWrite.Took? {
      DrainConserves(v.up, t.sockWrite.count);
    }
  }

  lemma ReadSocketSound(v: View, t: Turn)
    requires Sound(v)
    ensures Sound(ReadSocket(v, t))
  {
    hide Conserves, Fill;
    if t.sockRead.Got? && v.down.room > 0 && Clip(t.sockRead.bytes, v.down.room) != "" {
      FillConserves(v.down, Clip(t.sockRead.bytes, v.down.room));
    }
  }

  lemma WriteStdoutSound(v: View, t: Turn, armed: bool)
    requires Sound(v)
    ensures Sound(WriteStdout(v, t, armed))
  {
    hide Conserves, Drain;
    if t.stdoutWrite.Took? {
      DrainConserves(v.down, t.stdoutWrite.count);
    }
  }

  lemma NextSound(v: View, t: Turn)
    requires Sound(v)
    ensures Sound(Next(v, t))
  {
    hide Sound, ReadStdin, WriteSocket, ReadSocket, WriteStdout;
    var a := ReadStdin(v, t);
    var b := WriteSocket(a, t, v.up.waiting != "");
    ReadStdinSound(v, t);
    WriteSocketSound(a, t, v.up.waiting != "");
    ReadSocketSound(b, t);
    WriteStdoutSound(ReadSocket(b, t), t, v.down.waiting != "");
  }

  /** In every run, whatever the kernel answers, nothing is lost, reordered or invented in either direction,
      and the socket is shut down once and only when all input has been read and sent. */
  lemma {:induction false} RunSound(turns: seq<Turn>)
    ensures Sound(Run(START, turns))
    decreases |turns|
  {
    if turns != [] {
      RunSound(turns[..|turns| - 1]);
      NextSound(Run(START, turns[..|turns| - 1]), turns[|turns| - 1]);
    }
  }

  // ---------- what the kernel took and gave ----------

  /** The calls of one turn that are reached and made; each is reached unless one before it fails, the last
      also unless the peer has closed. */
  predicate ReadsStdin(v: View, t: Turn) {
    v.outcome == Going && !v.eof && v.up.room > 0 && t.stdinReady
  }

  predicate WritesSocket(v: View, t: Turn) {
    && v.outcome == Going && !(ReadsStdin(v, t) && t.stdinRead.ReadFails?)
    && v.up.waiting != "" && t.sockWritable
  }

  predicate PastWrite(v: View, t: Turn) {
    && v.outcome == Going && !(ReadsStdin(v, t) && t.stdinRead.ReadFails?)
    && !(WritesSocket(v, t) && t.sockWrite.WriteFails?)
  }

  predicate ReadsSocket(v: View, t: Turn) {
    PastWrite(v, t) && v.down.room > 0 && t.sockReadable
  }

  predicate WritesStdout(v: View, t: Turn) {
    && PastWrite(v, t) && !(ReadsSocket(v, t) && (t.sockRead.ReadFails? || t.sockRead == Got("")))
    && v.down.waiting != "" && t.stdoutReady
  }

  /** What a read hands over, and how many of the bytes offered a write takes. */
  function Given(made: bool, answer: ReadAnswer, room: nat): string {
    if made && answer.Got? then answer.bytes[..Min(|answer.bytes|, room)] else ""
  }

  function Taken(made: bool, answer: WriteAnswer, offered: nat): nat {
    if made && answer.Took? then Min(answer.count, offered) else 0
  }

  function UpGiven(v: View, t: Turn): string {
    Given(ReadsStdin(v, t), t.stdinRead, v.up.room)
  }

  function UpTaken(v: View, t: Turn): nat {
    Taken(WritesSocket(v, t), t.sockWrite, |v.up.waiting| + |UpGiven(v, t)|)
  }

  function DownGiven(v: View, t: Turn): string {
    Given(ReadsSocket(v, t), t.sockRead, v.down.room)
  }

  function DownTaken(v: View, t: Turn): nat {
    Taken(WritesStdout(v, t), t.stdoutWrite, |v.down.waiting| + |DownGiven(v, t)|)
  }

  /** `given` arrives behind what waits, and then exactly `taken` bytes leave in front; space comes back only
      when nothing is left. */
  ghost predicate Transfers(p: Pipe, q: Pipe, given: string, taken: nat) {
    && |given| <= p.room && taken <= |p.waiting + given|
    && q.read == p.read + given && q.written == p.written + (p.waiting + given)[..taken]
    && q.waiting == (p.waiting + given)[taken..]
    && q.room == if q.waiting == "" then MAXLINE else p.room - |given|
  }

  /** One turn moves in each direction what the kernel gives and takes, nothing less and nothing more. */
  lemma TurnTransfers(v: View, t: Turn)
    requires Sound(v)
    ensures Transfers(v.up, Next(v, t).up, UpGiven(v, t), UpTaken(v, t))
    ensures Transfers(v.down, Next(v, t).down, DownGiven(v, t), DownTaken(v, t))
  {
    UpTransfers(v, t);
    DownTransfers(v, t);
  }

  /** A pipe filled and then drained, each only if there is something to do. */
  function Passed(p: Pipe, given: string, made: bool, count: nat): Pipe
    requires |given| <= p.room
  {
    var m := if given == "" then p else Fill(p, given);
    if made then Drain(m, count) else m
  }

  lemma PassedTransfers(p: Pipe, given: string, made: bool, count: nat)
    requires Conserves(p) && |given| <= p.room
    ensures Transfers(p, Passed(p, given, made, count), given, if made then Min(count, |p.waiting| + |given|) else 0)
  {
    var m := if given == "" then p else Fill(p, given);
    assert m.waiting == p.waiting + given && m.read == p.read + given;
    assert (p.waiting + given)[..0] == "" && (p.waiting + given)[0..] == p.waiting + given;
  }

  lemma GivenIs(made: bool, answer: ReadAnswer, room: nat)
    ensures Given(made, answer, room) == if made && answer.Got? then Clip(answer.bytes, room) else ""
    ensures |Given(made, answer, room)| <= room
  {
  }

  lemma UpTransfers(v: View, t: Turn)
    requires Sound(v)
    ensures Transfers(v.up, Next(v, t).up, UpGiven(v, t), UpTaken(v, t))
  {
    hide Fill, Drain, Clip, Given, Transfers, Min;
    GivenIs(ReadsStdin(v, t), t.stdinRead, v.up.room);
    var made := WritesSocket(v, t) && t.sockWrite.Took?;
    var count := if made then t.sockWrite.count else 0;
    UpIsPassed(v, t);
    PassedTransfers(v.up, UpGiven(v, t), made, count);
  }

  lemma UpIsPassed(v: View, t: Turn)
    requires |UpGiven(v, t)| <= v.up.room
    ensures var made := WritesSocket(v, t) && t.sockWrite.Took?;
            Next(v, t).up == Passed(v.up, UpGiven(v, t), made, if made then t.sockWrite.count else 0)
  {
    hide Drain, Clip, Given;
    GivenIs(ReadsStdin(v, t), t.stdinRead, v.up.room);
    if UpGiven(v, t) != "" && v.up.waiting != "" {
      assert Fill(v.up, UpGiven(v, t)).waiting != "";
    }
  }

  lemma DownTransfers(v: View, t: Turn)
    requires Sound(v)
    ensures Transfers(v.down, Next(v, t).down, DownGiven(v, t), DownTaken(v, t))
  {
    hide Fill, Drain, Clip, Given, Transfers, Min;
    GivenIs(ReadsSocket(v, t), t.sockRead, v.down.room);
    var made := WritesStdout(v, t) && t.stdoutWrite.Took?;
    var count := if made then t.stdoutWrite.count else 0;
    DownIsPassed(v, t);
    PassedTransfers(v.down, DownGiven(v, t), made, count);
  }

  lemma DownIsPassed(v: View, t: Turn)
    requires |DownGiven(v, t)| <= v.down.room
    ensures var made := WritesStdout(v, t) && t.stdoutWrite.Took?;
            Next(v, t).down == Passed(v.down, DownGiven(v, t), made, if made then t.stdoutWrite.count else 0)
  {
    hide Drain, Given;
    GivenIs(ReadsSocket(v, t), t.sockRead, v.down.room);
    if DownGiven(v, t) != "" && v.down.waiting != "" {
      assert Fill(v.down, DownGiven(v, t)).waiting != "";
    }
  }

  // ---------- ends of streams ----------

  /** The state when turn `k` begins. */
  function At(turns: seq<Turn>, k: nat): View
    requires k <= |turns|
  {
    Run(START, turns[..k])
  }

  /** Everything the kernel has handed over and accepted in a run. */
  function UpGivenAll(turns: seq<Turn>): string {
    if turns == [] then ""
    else var init := turns[..|turns| - 1]; UpGivenAll(init) + UpGiven(Run(START, init), turns[|init|])
  }

  function UpTakenAll(turns: seq<Turn>): nat {
    if turns == [] then 0
    else var init := turns[..|turns| - 1]; UpTakenAll(init) + UpTaken(Run(START, init), turns[|init|])
  }

  function DownGivenAll(turns: seq<Turn>): string {
    if turns == [] then ""
    else var init := turns[..|turns| - 1]; DownGivenAll(init) + DownGiven(Run(START, init), turns[|init|])
  }

  function DownTakenAll(turns: seq<Turn>): nat {
    if turns == [] then 0
    else var init := turns[..|turns| - 1]; DownTakenAll(init) + DownTaken(Run(START, init), turns[|init|])
  }

  /** In every run, each direction has read exactly what the kernel handed over and written as many of those
      bytes, from the first, as the kernel accepted. */
  lemma RunTransfers(turns: seq<Turn>)
    ensures var v := Run(START, turns);
            && v.up.read == UpGivenAll(turns) && v.down.read == DownGivenAll(turns)
            && UpTakenAll(turns) <= |v.up.read| && v.up.written == v.up.read[..UpTakenAll(turns)]
            && DownTakenAll(turns) <= |v.down.read| && v.down.written == v.down.read[..DownTakenAll(turns)]
  {
    CountTransfers(turns);
    RunSound(turns);
    hide Run, UpGivenAll, UpTakenAll, DownGivenAll, DownTakenAll;
  }

  lemma {:induction false} CountTransfers(turns: seq<Turn>)
    ensures var v := Run(START, turns);
            && v.up.read == UpGivenAll(turns) && |v.up.written| == UpTakenAll(turns)
            && v.down.read == DownGivenAll(turns) && |v.down.written| == DownTakenAll(turns)
    decreases |turns|
  {
    if turns != [] {
      var init := turns[..|turns| - 1];
      CountTransfers(init);
      RunSound(init);
      TurnTransfers(Run(START, init), turns[|init|]);
      hide Next, UpGiven, UpTaken, DownGiven, DownTaken, Sound;
    }
  }

  /** In turn `k` some call that is made fails. */
  ghost predicate FailsAt(turns: seq<Turn>, k: nat)
    requires k < |turns|
  {
    CallFails(At(turns, k), turns[k])
  }

  predicate CallFails(v: View, t: Turn) {
    || (ReadsStdin(v, t) && t.stdinRead.ReadFails?) || (WritesSocket(v, t) && t.sockWrite.WriteFails?)
    || (ReadsSocket(v, t) && t.sockRead.ReadFails?) || (WritesStdout(v, t) && t.stdoutWrite.WriteFails?)
  }

  lemma FailStep(v: View, t: Turn)
    ensures Next(v, t).outcome == Failed <==> v.outcome == Failed || CallFails(v, t)
  {
    hide Drain, Clip;
    ClipEmpty(t.stdinRead, v.up.room);
    ClipEmpty(t.sockRead, v.down.room);
    assert forall p: Pipe, bytes | |bytes| <= p.room && bytes != "" :: Fill(p, bytes).waiting != "";
    hide Fill;
  }

  lemma ClipEmpty(answer: ReadAnswer, room: nat)
    ensures answer.Got? && room > 0 ==> (Clip(answer.bytes, room) == "" <==> answer.bytes == "")
  {
  }

  /** In turn `k` standard input is read, with room to read into, and has ended. */
  ghost predicate InputEndsAt(turns: seq<Turn>, k: nat)
    requires k < |turns|
  {
    ReadsStdin(At(turns, k), turns[k]) && turns[k].stdinRead == Got("")
  }

  /** In turn `k` the socket is read, with room to read into, and the peer has closed. */
  ghost predicate PeerClosesAt(turns: seq<Turn>, k: nat)
    requires k < |turns|
  {
    ReadsSocket(At(turns, k), turns[k]) && turns[k].sockRead == Got("")
  }

  lemma LastTurn(turns: seq<Turn>)
    requires turns != []
    ensures var k := |turns| - 1; Run(START, turns) == Next(At(turns, k), turns[k])
  {
  }

  lemma EarlierTurns(turns: seq<Turn>, k: nat)
    requires k + 1 < |turns|
    ensures var init := turns[..|turns| - 1];
            && (InputEndsAt(init, k) <==> InputEndsAt(turns, k)) && (PeerClosesAt(init, k) <==> PeerClosesAt(turns, k))
            && (FailsAt(init, k) <==> FailsAt(turns, k))
  {
    assert turns[..|turns| - 1][..k] == turns[..k];
  }

  /** No read is issued without room: in every run the relay takes standard input to have ended if and only
      if the kernel has said so. */
  lemma {:induction false} EndOfInputIsReal(turns: seq<Turn>)
    ensures Run(START, turns).eof <==> exists k :: 0 <= k < |turns| && InputEndsAt(turns, k)
    decreases |turns|
  {
    if turns != [] {
      var init := turns[..|turns| - 1];
      EndOfInputIsReal(init);
      LastTurn(turns);
      EndStep(Run(START, init), turns[|turns| - 1]);
      forall k | 0 <= k < |init| ensures InputEndsAt(init, k) <==> InputEndsAt(turns, k) {
        EarlierTurns(turns, k);
      }
      hide Next;
      assert InputEndsAt(turns, |init|) || !InputEndsAt(turns, |init|);
    }
  }

  lemma EndStep(v: View, t: Turn)
    ensures Next(v, t).eof
            <==> v.eof || (ReadsStdin(v, t) && t.stdinRead == Got(""))
  {
    hide Fill, Drain;
  }

  /** Likewise the relay returns if and only if the peer has closed. */
  lemma {:induction false} SocketCloseIsReal(turns: seq<Turn>)
    ensures Run(START, turns).outcome == SocketClosed <==> exists k :: 0 <= k < |turns| && PeerClosesAt(turns, k)
    decreases |turns|
  {
    hide Next, Run, PeerClosesAt;
    if turns == [] {
      NoTurns();
    } else {
      var init := turns[..|turns| - 1];
      SocketCloseIsReal(init);
      LastCloses(turns);
      forall k | 0 <= k < |init| ensures PeerClosesAt(init, k) <==> PeerClosesAt(turns, k) {
        EarlierTurns(turns, k);
      }
      assert PeerClosesAt(turns, |init|) || !PeerClosesAt(turns, |init|);
    }
  }

  lemma LastCloses(turns: seq<Turn>)
    requires turns != []
    ensures var k := |turns| - 1;
            Run(START, turns).outcome == SocketClosed
            <==> Run(START, turns[..k]).outcome == SocketClosed || PeerClosesAt(turns, k)
  {
    LastTurn(turns);
    CloseStep(Run(START, turns[..|turns| - 1]), turns[|turns| - 1]);
    hide Next, ReadStdin, WriteSocket, Run;
  }

  lemma CloseStep(v: View, t: Turn)
    ensures Next(v, t).outcome == SocketClosed
            <==> v.outcome == SocketClosed || (ReadsSocket(v, t) && t.sockRead == Got(""))
  {
    hide Drain, Clip;
    ClipEmpty(t.stdinRead, v.up.room);
    ClipEmpty(t.sockRead, v.down.room);
    assert forall p: Pipe, bytes | |bytes| <= p.room && bytes != "" :: Fill(p, bytes).waiting != "";
    hide Fill;
  }

  /** And it gives up if and only if a call that it made has failed; EAGAIN is no failure. */
  lemma {:induction false} FailureIsReal(turns: seq<Turn>)
    ensures Run(START, turns).outcome == Failed <==> exists k :: 0 <= k < |turns| && FailsAt(turns, k)
    decreases |turns|
  {
    hide Next, Run, FailsAt;
    if turns == [] {
      NoTurns();
    } else {
      var init := turns[..|turns| - 1];
      FailureIsReal(init);
      LastFails(turns);
      forall k | 0 <= k < |init| ensures FailsAt(init, k) <==> FailsAt(turns, k) {
        EarlierTurns(turns, k);
      }
      assert FailsAt(turns, |init|) || !FailsAt(turns, |init|);
    }
  }

  lemma NoTurns()
    ensures Run(START, []) == START
  {
  }

  lemma LastFails(turns: seq<Turn>)
    requires turns != []
    ensures var k := |turns| - 1;
            Run(START, turns).outcome == Failed <==> Run(START, turns[..k]).outcome == Failed || FailsAt(turns, k)
  {
    LastTurn(turns);
    FailStep(Run(START, turns[..|turns| - 1]), turns[|turns| - 1]);
    hide Next, CallFails, Run;
  }

  /** The descriptor sets given to `select`. */
  predicate WatchesInput(v: View) {
    !v.eof && v.up.room > 0
  }

  predicate WatchesSend(v: View) {
    v.up.waiting != ""
  }

  predicate WatchesReceive(v: View) {
    v.down.room > 0
  }

  predicate WatchesOutput(v: View) {
    v.down.waiting != ""
  }

  /** The relay never sleeps in `select` without waiting for the socket or for standard output; until input
      has ended it always waits for input or for the socket to take bytes, and from then on it waits for the
      socket to take bytes exactly until it has shut the socket down. */
  lemma AlwaysListens(turns: seq<Turn>)
    ensures var v := Run(START, turns);
            && (WatchesReceive(v) || WatchesOutput(v))
            && (!v.eof ==> WatchesInput(v) || WatchesSend(v))
            && (v.eof ==> !WatchesInput(v) && (WatchesSend(v) <==> v.shutdowns == 0))
  {
    RunSound(turns);
  }

  // ---------- what is lost when the peer closes ----------

  /** The relay prints nothing in the turn in which it sees the peer close. */
  lemma ClosePrintsNothing(v: View, close: Turn)
    requires v.outcome == Going && Next(v, close).outcome == SocketClosed
    ensures Next(v, close).down == v.down
  {
    hide Fill, Drain;
  }

  /** When the peer closes, everything received gets printed if and only if nothing was waiting for standard
      output when `select` was called; whatever was waiting then is lost, even if standard output is ready. */
  lemma PrintedAllExactly(before: seq<Turn>, close: Turn)
    requires Run(START, before).outcome == Going && Run(START, before + [close]).outcome == SocketClosed
    ensures var v, end := Run(START, before), Run(START, before + [close]);
            && (end.down.written == end.down.read <==> !WatchesOutput(v))
            && end.down.read == end.down.written + v.down.waiting
  {
    hide Next, Run;
    var v := Run(START, before);
    RunSnoc(before, close);
    RunSound(before);
    ClosePrintsNothing(v, close);
    assert |v.down.read| == |v.down.written| + |v.down.waiting|;
  }

  lemma RunSnoc(before: seq<Turn>, t: Turn)
    ensures Run(START, before + [t]) == Next(Run(START, before), t)
  {
    assert (before + [t])[..|before|] == before;
  }

  /** Standard output is ready and takes everything it is offered. */
  predicate PrintsAll(t: Turn) {
    t.stdoutReady && t.stdoutWrite.Took? && t.stdoutWrite.count >= MAXLINE
  }

  predicate BringsData(v: View, t: Turn) {
    WatchesReceive(v) && t.sockReadable && t.sockRead.Got? && t.sockRead.bytes != ""
  }

  lemma OneTurnLate(v: View, t: Turn)
    requires Sound(v) && v.outcome == Going && Next(v, t).outcome == Going && PrintsAll(t)
    ensures WatchesOutput(Next(v, t)) <==> !WatchesOutput(v) && BringsData(v, t)
  {
    hide Fill, Drain;
    var r := ReadSocket(WriteSocket(ReadStdin(v, t), t, v.up.waiting != ""), t);
    ReadSocketFills(v, t);
    PrintedWhole(r.down, t.stdoutWrite.count);
  }

  lemma ReadSocketFills(v: View, t: Turn)
    requires Sound(v) && v.outcome == Going && Next(v, t).outcome == Going
    ensures var r := ReadSocket(WriteSocket(ReadStdin(v, t), t, v.up.waiting != ""), t);
            && (r.down.waiting != "" <==> v.down.waiting != "" || BringsData(v, t))
            && |r.down.waiting| <= MAXLINE
  {
    hide Drain;
  }

  lemma PrintedWhole(p: Pipe, count: nat)
    requires |p.waiting| <= MAXLINE <= count
    ensures Drain(p, count).waiting == ""
  {
  }

  /** Even with a standard output that is always ready and takes everything, bytes are lost: exactly when the
      turn before the close brought data into an empty buffer, because it is printed one turn late. */
  lemma LastDataLostExactly(before: seq<Turn>, last: Turn, close: Turn)
    requires PrintsAll(last) && Run(START, before + [last]).outcome == Going
    requires Run(START, before + [last] + [close]).outcome == SocketClosed
    ensures var v, end := Run(START, before), Run(START, before + [last] + [close]);
            end.down.written != end.down.read <==> !WatchesOutput(v) && BringsData(v, last)
  {
    hide Next, Run, WatchesOutput, BringsData, PrintsAll;
    RunSnoc(before, last);
    StillGoing(Run(START, before), last);
    RunSound(before);
    OneTurnLate(Run(START, before), last);
    PrintedAllExactly(before + [last], close);
  }

  lemma StillGoing(v: View, t: Turn)
    requires Next(v, t).outcome == Going
    ensures v.outcome == Going
  {
  }

  /** A run that loses a byte although standard output is ready all the time. */
  lemma LastBytesCanBeLost()
    ensures var receive := Turn(false, true, false, true, ReadAgain, WriteAgain, Got("x"), Took(MAXLINE));
            var close := receive.(sockRead := Got(""));
            var end := Run(START, [receive, close]);
            end.outcome == SocketClosed && end.down.read == "x" && end.down.written == ""
  {
    var receive := Turn(false, true, false, true, ReadAgain, WriteAgain, Got("x"), Took(MAXLINE));
    var close := receive.(sockRead := Got(""));
    assert [receive, close][..1] == [receive] && [receive][..0] == [];
    var v := View(EMPTY, Pipe("x", MAXLINE - 1, "x", ""), false, 0, Going);
    assert Next(START, receive) == v;
    assert Run(START, [receive]) == v;
  }

  /** The socket takes at least one byte whenever there are some. */
  predicate Sends(t: Turn) {
    t.sockWritable && t.sockWrite.Took? && t.sockWrite.count > 0
  }

  lemma SendingShrinks(v: View, t: Turn)
    requires Sound(v) && v.eof && Sends(t) && v.up.waiting != "" && Next(v, t).outcome == Going
    ensures Next(v, t).eof && |Next(v, t).up.waiting| < |v.up.waiting|
  {
    hide Fill, Sound;
  }

  /** After the end of input, as many turns in which the socket takes something as there are bytes left
      bring the shutdown. */
  lemma {:induction false} ShutdownComes(v: View, turns: seq<Turn>)
    requires Sound(v) && v.eof && |turns| >= |v.up.waiting| && (forall t :: t in turns ==> Sends(t))
    requires Run(v, turns).outcome == Going
    ensures Run(v, turns).shutdowns == 1
    decreases |turns|
  {
    ShutdownNears(v, turns);
  }

  lemma {:induction false} ShutdownNears(v: View, turns: seq<Turn>)
    requires Sound(v) && v.eof && (forall t :: t in turns ==> Sends(t))
    requires Run(v, turns).outcome == Going
    ensures var w := Run(v, turns);
            Sound(w) && w.eof && (w.up.waiting == "" || |w.up.waiting| + |turns| <= |v.up.waiting|)
    decreases |turns|
  {
    hide Sound, Next;
    if turns != [] {
      var before, t := turns[..|turns| - 1], turns[|turns| - 1];
      assert t in turns;
      StopsForGood(v, before, t);
      ShutdownNears(v, before);
      var w := Run(v, before);
      NextSound(w, t);
      if w.up.waiting != "" {
        SendingShrinks(w, t);
      } else {
        StaysDrained(w, t);
      }
    }
  }

  lemma StopsForGood(v: View, before: seq<Turn>, t: Turn)
    requires Next(Run(v, before), t).outcome == Going
    ensures Run(v, before).outcome == Going
  {
  }

  lemma StaysDrained(v: View, t: Turn)
    requires v.eof && v.up.waiting == ""
    ensures Next(v, t).eof && Next(v, t).up.waiting == ""
  {
    hide Fill, Drain;
  }
}
