/** Reading lines through a cache of whole reads. */
module LineReader {
  import opened Common

  /** What the next `read` on the connection answers; no bytes mean end of file. */
  datatype Answer = Data(bytes: string) | Interrupted | Fails

  /** How the bytes to come end: end of file, an error, or a reader that waits. */
  datatype End = Eof | Error | Wait

  /** The bytes to come up to their end, and the answers behind the end. */
  datatype Stream = Stream(bytes: string, end: End, rest: seq<Answer>)

  function Ahead(answers: seq<Answer>): Stream {
    if answers == [] then Stream("", Wait, [])
    else
      match answers[0]
      case Fails => Stream("", Error, answers[1..])
      case Interrupted => Ahead(answers[1..])
      case Data(bytes) =>
        if bytes == "" then Stream("", Eof, answers[1..])
        else var s := Ahead(answers[1..]); s.(bytes := bytes + s.bytes)
  }

  /** Cached bytes come first. */
  function Behind(cached: string, s: Stream): Stream {
    s.(bytes := cached + s.bytes)
  }

  /** What `readline` does: `count` is its result, `stored` the bytes put in the caller's buffer before the
      closing NUL. */
  datatype Outcome = Line(count: nat, stored: string) | Nothing | Failed | Blocks

  /** Why a line stops. */
  datatype Why = AtNewLine | Full | AtEnd

  /** The line at the head of `bytes` with room for `room` of them, and why it stops there. */
  function Scan(bytes: string, room: nat): (r: (string, Why))
    ensures |r.0| <= |bytes| && |r.0| <= room
    decreases room
  {
    if room == 0 then ("", Full)
    else if bytes == "" then ("", AtEnd)
    else if bytes[0] == '\n' then ("\n", AtNewLine)
    else var r := Scan(bytes[1..], room - 1); ([bytes[0]] + r.0, r.1)
  }

  /** The result for a caller's buffer of `maxlen` bytes. At the end of file or in a full buffer the count is
      one more than the bytes stored. */
  function FirstLine(s: Stream, maxlen: nat): Outcome
    requires maxlen >= 1
  {
    match Scan(s.bytes, maxlen - 1)
    case (stored, AtNewLine) => Line(|stored|, stored)
    case (stored, Full) => Line(|stored| + 1, stored)
    case (stored, AtEnd) =>
      match s.end
      case Eof => if stored == "" then Nothing else Line(|stored| + 1, stored)
      case Error => Failed
      case Wait => Blocks
  }

  /** What is left to read. */
  function Remaining(s: Stream, maxlen: nat): Stream
    requires maxlen >= 1
  {
    var r := Scan(s.bytes, maxlen - 1);
    if r.1 == AtEnd then Ahead(s.rest) else s.(bytes := s.bytes[|r.0|..])
  }

  class Reader {
    const readBuf: array<char>
    var readPtr: nat
    var readCnt: int
    var connection: seq<Answer>

    constructor (connection: seq<Answer>)
      requires Chunked(connection)
      ensures Valid() && Pending() == Ahead(connection) && fresh(readBuf)
    {
      readBuf := new char[MAXLINE];
      readPtr, readCnt, this.connection := 0, 0, connection;
      new;
      assert Behind("", Ahead(connection)) == Ahead(connection);
    }

    ghost predicate Valid()
      reads this
    {
      && readBuf.Length == MAXLINE && Chunked(connection)
      && (readCnt > 0 ==> readPtr + readCnt <= readBuf.Length)
    }

    ghost function Cached(): string
      requires Valid()
      reads this, readBuf
    {
      if readCnt <= 0 then "" else readBuf[readPtr..readPtr + readCnt]
    }

    /** Everything still to be read. */
    ghost function Pending(): Stream
      requires Valid()
      reads this, readBuf
    {
      Behind(Cached(), Ahead(connection))
    }

    /** The reads that fill the empty cache, again after every interruption. */
    method Refill() returns (rc: int)
      requires Valid() && Cached() == ""
      modifies this, readBuf
      ensures Valid()
      ensures var s := old(Pending());
              if s.bytes != "" then rc == 1 && readCnt > 0 && Pending() == s
              else rc == EndCode(s.end) && Pending() == Ahead(s.rest)
    {
      NothingBehind(connection);
      while true
        invariant Valid() && Ahead(connection) == old(Pending()) && Cached() == ""
        decreases |connection|
      {
        if connection == [] {
          readCnt := 0;
          return -2;
        }
        var answer := connection[0];
        ghost var rest := connection[1..];
        connection := connection[1..];
        NothingBehind(rest);
        if answer.Fails? {
          readCnt := -1;
          return -1;
        }
        if answer.Data? {
          Receive(answer.bytes);
          return if readCnt == 0 then 0 else 1;
        }
      }
    }

    /** What one `read` leaves in the cache. */
    method Receive(bytes: string)
      requires Valid() && |bytes| <= MAXLINE
      modifies this`readCnt, this`readPtr, readBuf
      ensures Valid() && readCnt == |bytes| && Cached() == bytes
    {
      readCnt := |bytes|;
      if readCnt == 0 {
        return;
      }
      forall k | 0 <= k < |bytes| {
        readBuf[k] := bytes[k];
      }
      readPtr := 0;
      assert readBuf[0..readCnt] == bytes;
    }

    /** `my_read`: 1 and the next byte, 0 at end of file, -1 on an error; -2 stands for a read that waits. */
    method NextByte() returns (rc: int, c: char)
      requires Valid()
      modifies this, readBuf
      ensures Valid()
      ensures var s := old(Pending());
              if s.bytes != "" then rc == 1 && c == s.bytes[0] && Pending() == s.(bytes := s.bytes[1..])
              else rc == EndCode(s.end) && Pending() == Ahead(s.rest)
    {
      hide Ahead;
      c := ' ';
      if readCnt <= 0 {
        rc := Refill();
        if rc != 1 {
          return;
        }
      }
      ghost var cached, s := Cached(), Pending();
      readCnt := readCnt - 1;
      c := readBuf[readPtr];
      readPtr := readPtr + 1;
      rc := 1;
      assert Cached() == cached[1..];
      HeadAndTail(cached, Ahead(connection).bytes);
    }

    /** The loop of `readline`. `n` is its counter, `ptr` the end of what is stored, `rc` the last answer. */
    method FillBuffer(buffer: array<char>, maxlen: nat) returns (n: nat, ptr: nat, rc: int)
      requires Valid() && 1 <= maxlen <= buffer.Length && buffer != readBuf
      modifies this, readBuf, buffer
      ensures Valid() && ptr < maxlen && Pending() == Remaining(old(Pending()), maxlen)
      ensures var r := Scan(old(Pending()).bytes, maxlen - 1);
              && buffer[..ptr] == r.0
              && n == (if r.1 == AtNewLine then ptr else ptr + 1)
              && rc == (if r.1 == AtEnd then EndCode(old(Pending()).end) else 1)
    {
      hide Ahead, Behind, Scan, Scans, Cached;
      ghost var s, left := Pending(), Pending().bytes;
      ScanStarts(s.bytes, maxlen - 1);
      n, ptr, rc := 1, 0, 1;
      while n < maxlen
        invariant 1 <= n <= maxlen && ptr == n - 1 && rc == 1
        invariant Valid() && Pending() == s.(bytes := left)
        invariant Scans(s.bytes, maxlen - 1, buffer[..ptr], left, maxlen - n)
      {
        ghost var stored := buffer[..ptr];
        ScanStep(s.bytes, maxlen - 1, stored, left, maxlen - n);
        var c;
        rc, c := NextByte();
        if rc != 1 {
          return;
        }
        buffer[ptr] := c;
        ptr := ptr + 1;
        assert buffer[..ptr] == stored + [c];
        left := left[1..];
        if c == '\n' {
          return;
        }
        n := n + 1;
      }
      ScanFull(s.bytes, maxlen - 1, buffer[..ptr], left);
    }

    /** `readline` into a buffer of `maxlen` bytes, closed by a NUL unless nothing came. */
    method ReadLine(buffer: array<char>, maxlen: nat) returns (r: Outcome)
      requires Valid() && 1 <= maxlen <= buffer.Length && buffer != readBuf
      modifies this, readBuf, buffer
      ensures Valid()
      ensures r == FirstLine(old(Pending()), maxlen) && Pending() == Remaining(old(Pending()), maxlen)
      ensures r.Line? ==> |r.stored| < maxlen && buffer[..|r.stored|] == r.stored && buffer[|r.stored|] == '\0'
    {
      hide Ahead, Behind, Scan, Cached, Remaining;
      var n, ptr, rc := FillBuffer(buffer, maxlen);
      if rc == 0 && n == 1 {
        return Nothing;
      }
      if rc < 0 {
        return if rc == -1 then Failed else Blocks;
      }
      buffer[ptr] := '\0';
      return Line(n, buffer[..ptr]);
    }
  }

  /** `stored` has been taken from the head of `bytes`, `left` is behind it, and the scan goes on there. */
  ghost predicate Scans(bytes: string, room: nat, stored: string, left: string, roomLeft: int) {
    && bytes == stored + left && roomLeft >= 0
    && Scan(bytes, room) == (stored + Scan(left, roomLeft).0, Scan(left, roomLeft).1)
  }

  lemma ScanStarts(bytes: string, room: nat)
    ensures Scans(bytes, room, "", bytes, room)
  {
    assert "" + bytes == bytes && "" + Scan(bytes, room).0 == Scan(bytes, room).0;
  }

  lemma ScanStep(bytes: string, room: nat, stored: string, left: string, roomLeft: int)
    requires Scans(bytes, room, stored, left, roomLeft) && roomLeft > 0
    ensures left == "" ==> Scan(bytes, room) == (stored, AtEnd) && bytes == stored
    ensures left != "" && left[0] == '\n' ==>
      Scan(bytes, room) == (stored + [left[0]], AtNewLine) && bytes[|stored| + 1..] == left[1..]
    ensures left != "" && left[0] != '\n' ==> Scans(bytes, room, stored + [left[0]], left[1..], roomLeft - 1)
  {
    if left == "" {
      assert stored + "" == stored;
    } else {
      assert stored + [left[0]] + left[1..] == stored + left;
      var next := Scan(left[1..], roomLeft - 1).0;
      assert stored + ([left[0]] + next) == stored + [left[0]] + next;
    }
  }

  lemma ScanFull(bytes: string, room: nat, stored: string, left: string)
    requires Scans(bytes, room, stored, left, 0)
    ensures Scan(bytes, room) == (stored, Full) && bytes[|stored|..] == left
  {
    assert stored + "" == stored;
  }

  function EndCode(end: End): int {
    match end
    case Eof => 0
    case Error => -1
    case Wait => -2
  }

  lemma HeadAndTail(cached: string, ahead: string)
    requires cached != ""
    ensures (cached + ahead)[0] == cached[0] && (cached + ahead)[1..] == cached[1..] + ahead
  {
  }

  lemma NothingBehind(answers: seq<Answer>)
    ensures Behind("", Ahead(answers)) == Ahead(answers)
  {
    assert "" + Ahead(answers).bytes == Ahead(answers).bytes;
  }

  /** A read hands over at most as many bytes as the cache holds. */
  predicate Chunked(answers: seq<Answer>) {
    forall i :: 0 <= i < |answers| ==> answers[i].Data? ==> |answers[i].bytes| <= MAXLINE
  }

  // ---------- what a caller can rely on ----------

  /** What is stored is the head of the stream with a newline nowhere but at its end, and it stops for one of
      three reasons: the newline, a full buffer, or no more bytes. */
  lemma {:induction false} ScanMeans(bytes: string, room: nat)
    ensures var (stored, why) := Scan(bytes, room);
            && stored <= bytes
            && (forall j :: 0 <= j < |stored| ==> (stored[j] == '\n' <==> why == AtNewLine && j == |stored| - 1))
            && (why == AtNewLine ==> stored != "")
            && (why == Full ==> |stored| == room)
            && (why == AtEnd ==> stored == bytes && |bytes| < room)
    decreases room
  {
    if room > 0 && bytes != "" && bytes[0] != '\n' {
      ScanMeans(bytes[1..], room - 1);
    }
  }

  /** The line stops at a newline if and only if there is one among the bytes there is room for. */
  lemma {:induction false} ScanFindsNewLine(bytes: string, room: nat)
    ensures Scan(bytes, room).1 == AtNewLine <==> exists j :: 0 <= j < |bytes| && j < room && bytes[j] == '\n'
    decreases room
  {
    if room > 0 && bytes != "" && bytes[0] != '\n' {
      var rest := bytes[1..];
      ScanFindsNewLine(rest, room - 1);
      if j :| 0 <= j < |rest| && j < room - 1 && rest[j] == '\n' {
        assert bytes[j + 1] == '\n';
      }
      if j :| 0 <= j < |bytes| && j < room && bytes[j] == '\n' {
        assert rest[j - 1] == '\n';
      }
    }
  }

  /** A newline is among the bytes there is room for. */
  predicate NewLineFits(s: Stream, maxlen: nat) {
    exists j :: 0 <= j < |s.bytes| && j < maxlen - 1 && s.bytes[j] == '\n'
  }

  /** The bytes end before there is a newline or the buffer is full. */
  predicate RunsOut(s: Stream, maxlen: nat) {
    !NewLineFits(s, maxlen) && |s.bytes| < maxlen - 1
  }

  /** The bytes up to the newline, the end of the buffer or the end of the bytes, whatever comes first. */
  ghost predicate LineFits(s: Stream, maxlen: nat, stored: string) {
    && |stored| <= |s.bytes| && stored == s.bytes[..|stored|]
    && (forall j :: 0 <= j < |stored| - 1 ==> stored[j] != '\n')
    && if NewLineFits(s, maxlen) then stored != "" && stored[|stored| - 1] == '\n'
       else |stored| == Min(maxlen - 1, |s.bytes|)
  }

  /** Which answer when, and what is left: 0 only at end of file with nothing before it, an error or a wait
      exactly if the bytes run out before one, and otherwise a line of as many bytes as there are up to the
      newline, the end of the buffer or the end of file. */
  lemma AnswersExactly(s: Stream, maxlen: nat)
    requires maxlen >= 1
    ensures var r := FirstLine(s, maxlen);
            && (r == Nothing <==> s.bytes == "" && s.end == Eof && maxlen >= 2)
            && (r == Failed <==> RunsOut(s, maxlen) && s.end == Error)
            && (r == Blocks <==> RunsOut(s, maxlen) && s.end == Wait)
            && (r.Line? ==> LineFits(s, maxlen, r.stored))
            && Remaining(s, maxlen) == if RunsOut(s, maxlen) then Ahead(s.rest) else s.(bytes := s.bytes[|r.stored|..])
  {
    ScanMeans(s.bytes, maxlen - 1);
    ScanFindsNewLine(s.bytes, maxlen - 1);
    hide Scan;
  }

  /** The count returned is the number of bytes stored if and only if a newline comes among the bytes there is
      room for; at the end of file and in a full buffer it is one too many. */
  lemma CountIsRightExactly(s: Stream, maxlen: nat)
    requires maxlen >= 1 && FirstLine(s, maxlen).Line?
    ensures var Line(count, stored) := FirstLine(s, maxlen);
            && (count == |stored| <==> NewLineFits(s, maxlen))
            && (count == |stored| || count == |stored| + 1)
  {
    ScanFindsNewLine(s.bytes, maxlen - 1);
  }

  /** Reads that hand over bytes or are interrupted. */
  predicate Flowing(answers: seq<Answer>) {
    forall i :: 0 <= i < |answers| ==> answers[i] == Interrupted || (answers[i].Data? && answers[i].bytes != "")
  }

  function Received(answers: seq<Answer>): string {
    if answers == [] then ""
    else (if answers[0].Data? then answers[0].bytes else "") + Received(answers[1..])
  }

  /** The end that a read brings which does neither. */
  function EndOf(answers: seq<Answer>): End {
    if answers == [] then Wait else if answers[0].Fails? then Error else Eof
  }

  /** The stream is all that is received up to the first error or end of file; interruptions leave no trace. */
  lemma {:induction false} StreamIs(before: seq<Answer>, after: seq<Answer>)
    requires Flowing(before) && !(after != [] && Flowing(after[..1]))
    ensures Ahead(before + after)
         == Stream(Received(before), EndOf(after), if after == [] then [] else after[1..])
  {
    if before == [] {
      assert before + after == after;
      assert after != [] ==> after[..1][0] == after[0];
    } else {
      assert (before + after)[1..] == before[1..] + after;
      StreamIs(before[1..], after);
    }
  }

  function AsAnswers(pieces: seq<string>): seq<Answer> {
    if pieces == [] then [] else [Data(pieces[0])] + AsAnswers(pieces[1..])
  }

  /** How the bytes are cut into reads does not matter: the stream is their concatenation before what follows.
      So by the contract of ReadLine neither do the lines. */
  lemma {:induction false} CutsDoNotMatter(pieces: seq<string>, after: seq<Answer>)
    requires forall i :: 0 <= i < |pieces| ==> pieces[i] != ""
    ensures Ahead(AsAnswers(pieces) + after) == Behind(Concat(pieces), Ahead(after))
  {
    hide Ahead;
    if pieces == [] {
      assert AsAnswers(pieces) + after == after;
      NothingBehind(after);
    } else {
      CutsDoNotMatter(pieces[1..], after);
      OnePiece(pieces[0], AsAnswers(pieces[1..]) + after);
      assert AsAnswers(pieces) + after == [Data(pieces[0])] + (AsAnswers(pieces[1..]) + after);
      assert pieces[0] + (Concat(pieces[1..]) + Ahead(after).bytes) == Concat(pieces) + Ahead(after).bytes;
    }
  }

  lemma OnePiece(piece: string, after: seq<Answer>)
    requires piece != ""
    ensures Ahead([Data(piece)] + after) == Behind(piece, Ahead(after))
  {
    assert ([Data(piece)] + after)[1..] == after;
  }

  /** The call reaches the end of the stream. */
  predicate MeetsEnd(s: Stream, maxlen: nat)
    requires maxlen >= 1
  {
    Scan(s.bytes, maxlen - 1).1 == AtEnd
  }

  lemma StreamShrinks(s: Stream, maxlen: nat)
    requires maxlen >= 2 && !MeetsEnd(s, maxlen)
    ensures |Remaining(s, maxlen).bytes| < |s.bytes|
  {
  }

  /** The lines that repeated calls hand over up to the end of the stream, in a buffer with room for at least
      one byte and its NUL. */
  function Lines(s: Stream, maxlen: nat): seq<string>
    requires maxlen >= 2
    decreases |s.bytes|
  {
    match FirstLine(s, maxlen)
    case Line(_, stored) =>
      if MeetsEnd(s, maxlen) then [stored]
      else
        StreamShrinks(s, maxlen);
        [stored] + Lines(Remaining(s, maxlen), maxlen)
    case _ => []
  }

  /** How many bytes come after the last newline. */
  function Tail(bytes: string): (n: nat)
    ensures n <= |bytes| && (n == |bytes| <==> '\n' !in bytes)
  {
    if bytes == "" || bytes[|bytes| - 1] == '\n' then 0
    else
      assert bytes == bytes[..|bytes| - 1] + [bytes[|bytes| - 1]];
      1 + Tail(bytes[..|bytes| - 1])
  }

  /** The bytes that nobody gets: before an error, or while the reader waits, those of a line that has been
      begun. */
  function Dropped(s: Stream, maxlen: nat): (n: nat)
    requires maxlen >= 2
    ensures n <= |s.bytes|
  {
    if s.end == Eof then 0 else Tail(s.bytes) % (maxlen - 1)
  }

  lemma {:induction false} TailBehind(a: string, b: string)
    ensures Tail(a + b) == if '\n' in b then Tail(b) else Tail(a) + |b|
    decreases |b|
  {
    if b == "" {
      assert a + b == a;
    } else {
      var init, last := b[..|b| - 1], b[|b| - 1];
      assert (a + b)[..|a + b| - 1] == a + init;
      assert b == init + [last];
      TailBehind(a, init);
    }
  }

  /** What one call takes does not change what is dropped. */
  lemma DroppedLater(s: Stream, maxlen: nat)
    requires maxlen >= 2 && !MeetsEnd(s, maxlen)
    ensures Dropped(Remaining(s, maxlen), maxlen) == Dropped(s, maxlen)
  {
    var (stored, why) := Scan(s.bytes, maxlen - 1);
    ScanMeans(s.bytes, maxlen - 1);
    var rest := s.bytes[|stored|..];
    assert s.bytes == stored + rest;
    TailBehind(stored, rest);
    hide Scan, Tail;
    if why == AtNewLine {
      assert stored[|stored| - 1] == '\n';
    } else if '\n' !in rest {
      assert '\n' !in stored;
      OneTurnMore(|rest|, maxlen - 1);
    }
  }

  lemma OneTurnMore(n: nat, m: nat)
    requires m > 0
    ensures (m + n) % m == n % m
  {
    var d := (m + n) / m - n / m - 1;
    assert m * ((m + n) / m) == m * (d + n / m + 1) == m * d + m * (n / m) + m;
    assert (m + n) % m - n % m == -(m * d);
    if d != 0 {
      AtLeastOnce(m, if d > 0 then d else -d);
    }
  }

  lemma AtLeastOnce(m: nat, d: nat)
    requires d > 0
    ensures m * d >= m
  {
  }

  /** Repeated calls hand over the bytes in order, none twice, all but the dropped ones. */
  lemma {:induction false} LinesAre(s: Stream, maxlen: nat)
    requires maxlen >= 2
    ensures Concat(Lines(s, maxlen)) == s.bytes[..|s.bytes| - Dropped(s, maxlen)]
    decreases |s.bytes|
  {
    if MeetsEnd(s, maxlen) {
      LastLine(s, maxlen);
    } else {
      StreamShrinks(s, maxlen);
      LinesAre(Remaining(s, maxlen), maxlen);
      DroppedLater(s, maxlen);
      LineBefore(s, maxlen);
      hide Dropped, Lines, Remaining, MeetsEnd;
    }
  }

  lemma LineBefore(s: Stream, maxlen: nat)
    requires maxlen >= 2 && !MeetsEnd(s, maxlen)
    ensures var (stored, rest) := (Scan(s.bytes, maxlen - 1).0, Remaining(s, maxlen));
            Concat(Lines(s, maxlen)) == stored + Concat(Lines(rest, maxlen)) && s.bytes == stored + rest.bytes
  {
    ScanMeans(s.bytes, maxlen - 1);
    hide Scan;
    FirstThenRest(Scan(s.bytes, maxlen - 1).0, Lines(Remaining(s, maxlen), maxlen));
  }

  lemma LastLine(s: Stream, maxlen: nat)
    requires maxlen >= 2 && MeetsEnd(s, maxlen)
    ensures Concat(Lines(s, maxlen)) == s.bytes[..|s.bytes| - Dropped(s, maxlen)]
  {
    ScanMeans(s.bytes, maxlen - 1);
    hide Scan, Tail;
    assert '\n' !in s.bytes;
    FirstThenRest(s.bytes, []);
    LessThanOnce(|s.bytes|, maxlen - 1);
  }

  lemma LessThanOnce(n: nat, m: nat)
    requires n < m
    ensures n % m == n
  {
  }

  /** No byte is lost between lines if and only if the stream ends in end of file or the bytes behind its last
      newline fill a whole number of buffers. */
  lemma LinesReassembleExactly(s: Stream, maxlen: nat)
    requires maxlen >= 2
    ensures Concat(Lines(s, maxlen)) == s.bytes <==> s.end == Eof || Tail(s.bytes) % (maxlen - 1) == 0
  {
    LinesAre(s, maxlen);
    hide Lines, Tail;
    assert s.bytes[..|s.bytes|] == s.bytes;
  }

  lemma FirstThenRest(first: string, rest: seq<string>)
    ensures Concat([first] + rest) == first + Concat(rest)
  {
    assert ([first] + rest)[1..] == rest;
  }
}
