/** The relay as the program runs it: two arrays, four positions and the end-of-input flag. */
module SelectRelay {
  import opened Common
  import opened Relay

  /** One of the two buffers with its pointers: bytes between `optr` and `iptr` wait to be written. */
  class Buffer {
    const data: array<char>
    var iptr: nat
    var optr: nat
    ghost var read: string
    ghost var written: string

    constructor ()
      ensures fresh(data) && Valid() && Empty(this)
    {
      data := new char[MAXLINE];
      iptr, optr, read, written := 0, 0, "", "";
    }

    ghost predicate Valid()
      reads this
    {
      optr <= iptr <= data.Length == MAXLINE
    }

    ghost function Value(): Pipe
      requires Valid()
      reads this, data
    {
      Pipe(data[optr..iptr], MAXLINE - iptr, read, written)
    }

    /** A `read` call at `iptr` with all the space behind it; the pointer moves by what arrived. */
    method ReadAt(bytes: string) returns (n: nat)
      requires Valid()
      modifies this`iptr, this`read, data
      ensures Valid()
      ensures n == |Clip(bytes, old(Value()).room)|
      ensures Value() == Fill(old(Value()), Clip(bytes, old(Value()).room))
      ensures var given := bytes[..Min(|bytes|, old(MAXLINE - iptr))];
              read == old(read) + given && data[optr..iptr] == old(data[optr..iptr]) + given
    {
      var got := Clip(bytes, data.Length - iptr);
      n := |got|;
      forall k | 0 <= k < n {
        data[iptr + k] := got[k];
      }
      iptr := iptr + n;
      read := read + got;
      assert data[optr..iptr] == old(data[optr..iptr]) + got;
    }

    /** A `write` call of all that waits; the pointers go back to the start when nothing is left. */
    method WriteFrom(count: nat)
      requires Valid() && iptr > optr
      modifies this
      ensures Valid() && Value() == Drain(old(Value()), count)
      ensures var waiting, taken := old(data[optr..iptr]), Min(count, old(iptr - optr));
              written == old(written) + waiting[..taken] && data[optr..iptr] == waiting[taken..]
    {
      var n := if count < iptr - optr then count else iptr - optr;
      written := written + data[optr..optr + n];
      ghost var waiting := data[optr..iptr];
      assert waiting[..n] == data[optr..optr + n] && waiting[n..] == data[optr + n..iptr];
      optr := optr + n;
      if optr == iptr {
        optr, iptr := 0, 0;
      }
    }
  }

  ghost predicate Empty(b: Buffer)
    reads b
  {
    b.iptr == b.optr == 0 && b.read == b.written == ""
  }

  class Client {
    const to: Buffer
    const fr: Buffer
    var stdineof: bool
    var shutdowns: nat
    var outcome: Outcome

    constructor ()
      ensures fresh(to) && fresh(fr) && fresh(to.data) && fresh(fr.data)
      ensures Valid() && outcome == Going && !stdineof && shutdowns == 0 && Empty(to) && Empty(fr)
    {
      var empty1 := new Buffer();
      var empty2 := new Buffer();
      to, fr, stdineof, shutdowns, outcome := empty1, empty2, false, 0, Going;
    }

    ghost predicate Valid()
      reads to, fr
    {
      to != fr && to.data != fr.data && to.Valid() && fr.Valid()
    }

    ghost function Value(): View
      requires Valid()
      reads this, to, fr, to.data, fr.data
    {
      View(to.Value(), fr.Value(), stdineof, shutdowns, outcome)
    }

    /** One pass of the loop body of `str_cli`. */
    method OneTurn(t: Turn)
      requires Valid() && outcome == Going
      modifies this, to, fr, to.data, fr.data
      ensures Valid() && Value() == Next(old(Value()), t)
    {
      hide Fill, Drain, Clip, ReadStdin, WriteSocket, ReadSocket, WriteStdout;
      var askStdin := !stdineof && to.iptr < MAXLINE;
      var askSockRead := fr.iptr < MAXLINE;
      var askSockWrite := to.optr != to.iptr;
      var askStdout := fr.optr != fr.iptr;
      FromStdin(t, askStdin && t.stdinReady);
      ToSocket(t, askSockWrite && t.sockWritable, askSockWrite);
      FromSocket(t, askSockRead && t.sockReadable);
      ToStdout(t, askStdout && t.stdoutReady, askStdout);
    }

    method FromStdin(t: Turn, isset: bool)
      requires Valid() && outcome == Going && isset == (!stdineof && to.iptr < MAXLINE && t.stdinReady)
      modifies this, to, to.data
      ensures Valid() && fr.Value() == old(fr.Value())
      ensures Value() == ReadStdin(old(Value()), t)
    {
      hide Drain, Clip, Min;
      if isset {
        match t.stdinRead {
          case ReadFails => outcome := Failed;
          case ReadAgain =>
          case Got(bytes) =>
            var n := to.ReadAt(bytes);
            if n == 0 {
              stdineof := true;
              if to.optr == to.iptr {
                shutdowns := shutdowns + 1;
              }
            }
        }
      }
    }

    method ToSocket(t: Turn, isset: bool, ghost armed: bool)
      requires Valid() && isset == (armed && t.sockWritable)
      modifies this, to
      ensures Valid() && fr.Value() == old(fr.Value())
      ensures Value() == WriteSocket(old(Value()), t, armed)
    {
      hide Fill, Drain, Clip, Min;
      if outcome == Going && isset && to.iptr > to.optr {
        match t.sockWrite {
          case WriteFails => outcome := Failed;
          case WriteAgain =>
          case Took(count) =>
            to.WriteFrom(count);
            if to.optr == to.iptr {
              if stdineof {
                shutdowns := shutdowns + 1;
              }
            }
        }
      }
    }

    method FromSocket(t: Turn, isset: bool)
      requires Valid() && isset == (fr.iptr < MAXLINE && t.sockReadable)
      modifies this, fr, fr.data
      ensures Valid() && to.Value() == old(to.Value())
      ensures Value() == ReadSocket(old(Value()), t)
    {
      hide Drain, Clip, Min;
      if outcome == Going && isset {
        match t.sockRead {
          case ReadFails => outcome := Failed;
          case ReadAgain =>
          case Got(bytes) =>
            var n := fr.ReadAt(bytes);
            if n == 0 {
              outcome := SocketClosed;
            }
        }
      }
    }

    method ToStdout(t: Turn, isset: bool, ghost armed: bool)
      requires Valid() && isset == (armed && t.stdoutReady)
      modifies this, fr
      ensures Valid() && to.Value() == old(to.Value())
      ensures Value() == WriteStdout(old(Value()), t, armed)
    {
      hide Fill, Drain, Clip, Min;
      if outcome == Going && isset && fr.iptr > fr.optr {
        match t.stdoutWrite {
          case WriteFails => outcome := Failed;
          case WriteAgain =>
          case Took(count) => fr.WriteFrom(count);
        }
      }
    }
  }

  lemma StartsEmpty(c: Client)
    requires c.Valid() && c.outcome == Going && !c.stdineof && c.shutdowns == 0 && Empty(c.to) && Empty(c.fr)
    ensures c.Value() == START
  {
    assert c.to.data[0..0] == "" && c.fr.data[0..0] == "";
  }

  /** `str_cli` over any sequence of kernel answers. What standard output, the socket and the shutdown have
      seen at the end is what RunSound says of every run. */
  method StrCli(turns: seq<Turn>) returns (c: Client)
    ensures c.Valid() && c.Value() == Run(START, turns) && Sound(c.Value())
  {
    hide Next, Sound, Run, Upto;
    c := new Client();
    StartsEmpty(c);
    UptoFirst(turns);
    var i := 0;
    while i < |turns| && c.outcome == Going
      invariant 0 <= i <= |turns| && c.Valid() && c.Value() == Upto(turns, i)
      invariant fresh(c) && fresh(c.to) && fresh(c.fr) && fresh(c.to.data) && fresh(c.fr.data)
    {
      UptoNext(turns, i);
      c.OneTurn(turns[i]);
      i := i + 1;
    }
    StoppedStays(turns, i);
    RunSound(turns);
  }

  ghost function Upto(turns: seq<Turn>, i: nat): View
    requires i <= |turns|
  {
    Run(START, turns[..i])
  }

  lemma UptoFirst(turns: seq<Turn>)
    ensures Upto(turns, 0) == START
  {
  }

  lemma UptoNext(turns: seq<Turn>, i: nat)
    requires i < |turns|
    ensures Upto(turns, i + 1) == Next(Upto(turns, i), turns[i])
  {
    assert turns[..i + 1][..i] == turns[..i];
    hide Next;
  }

  lemma {:induction false} StoppedStays(turns: seq<Turn>, i: nat)
    requires i <= |turns| && (i == |turns| || Upto(turns, i).outcome != Going)
    ensures Run(START, turns) == Upto(turns, i)
    decreases |turns| - i
  {
    if i < |turns| {
      UptoNext(turns, i);
      StoppedStays(turns, i + 1);
    } else {
      assert turns[..i] == turns;
    }
  }
}
