/** Passing a descriptor, or an error, behind ordinary data: two bytes close the message. */
module FdPassing {
  import opened Common

  /** What one `recvmsg` hands over; `control` is the descriptor sent along, if any. A failed call is
      RecvFails, and no bytes mean that the sender has closed. */
  datatype Chunk = Chunk(bytes: seq<Byte>, control: Option<int>) | RecvFails

  // ---------- the sender ----------

  /** The second byte: C truncates the negated code to one byte, and 0 is replaced by 1. */
  function StatusByte(fdToSend: int): (b: Byte)
    ensures b == 0 <==> fdToSend > 0
  {
    if fdToSend > 0 then 0 else if -fdToSend % 256 == 0 then 1 else -fdToSend % 256
  }

  /** What an error arrives as: the one from 1 to 255 that agrees with it in the last eight bits, or 1. */
  lemma StatusIs(fdToSend: int)
    requires fdToSend <= 0
    ensures exists k :: fdToSend + StatusByte(fdToSend) == 256 * k || fdToSend + StatusByte(fdToSend) == 256 * k + 1
    ensures StatusByte(fdToSend) == 1 || exists k :: fdToSend + StatusByte(fdToSend) == 256 * k
  {
    var q, b := -fdToSend / 256, -fdToSend % 256;
    assert fdToSend + b == 256 * (-q);
    if b == 0 {
      assert fdToSend + StatusByte(fdToSend) == 256 * (-q) + 1;
    } else {
      assert fdToSend + StatusByte(fdToSend) == 256 * (-q);
    }
  }

  function Message(fdToSend: int): Chunk {
    Chunk([0, StatusByte(fdToSend)], if fdToSend > 0 then Some(fdToSend) else None)
  }

  /** `send_fd`, filling the buffer as the program does. */
  method SendFd(fdToSend: int) returns (sent: Chunk)
    ensures sent == Message(fdToSend)
  {
    var buf := new Byte[2](_ => 0);
    var control := None;
    if fdToSend <= 0 {
      buf[1] := -fdToSend % 256;
      if buf[1] == 0 {
        buf[1] := 1;
      }
    } else {
      control := Some(fdToSend);
      buf[1] := 0;
    }
    buf[0] := 0;
    assert buf[..] == [0, StatusByte(fdToSend)];
    return Chunk(buf[..], control);
  }

  // ---------- the receiver ----------

  /** `Dumped` is err_dump, `Refused` the -1 of a failed or closed connection or of a caller's function that
      does not take all it is handed, `Blocked` a receiver that still waits. `Got` is what recv_fd returns otherwise. */
  datatype Result = Got(newfd: int) | Refused | Dumped | Blocked

  /** The first NUL of a chunk, or its length. */
  function FirstNul(bytes: seq<Byte>): (i: nat)
    ensures i <= |bytes| && (i < |bytes| ==> bytes[i] == 0) && forall j :: 0 <= j < i ==> bytes[j] != 0
  {
    if bytes == [] || bytes[0] == 0 then 0 else 1 + FirstNul(bytes[1..])
  }

  /** What the status byte and the control data come to. */
  function Meaning(status: Byte, control: Option<int>): Result {
    if status != 0 then Got(-(status as int)) else if control.None? then Dumped else Got(control.value)
  }

  /** Whether the caller's function takes all the bytes it is handed. */
  type Consumer = seq<Byte> -> bool

  /** `recv_fd` on what the connection will deliver: the result and the data handed to the caller's function. */
  function Receive(chunks: seq<Chunk>, takes: Consumer): (r: (Result, seq<Byte>))
    decreases |chunks|
  {
    if chunks == [] then (Blocked, [])
    else if chunks[0].RecvFails? || chunks[0].bytes == [] then (Refused, [])
    else
      var bytes := chunks[0].bytes;
      var i := FirstNul(bytes);
      if i == |bytes| then
        if !takes(bytes) then (Refused, bytes)
        else var rest := Receive(chunks[1..], takes); (rest.0, bytes + rest.1)
      else if i != |bytes| - 2 then (Dumped, [])
      else
        var r := Meaning(bytes[i + 1], chunks[0].control);
        if r.Dumped? then (r, []) else (if i > 0 && !takes(bytes[..i]) then Refused else r, bytes[..i])
  }

  /** The loop over one chunk: a pointer runs over the bytes, and `nr` loses the two of the message when they
      are found. */
  method ScanChunk(buf: seq<Byte>, control: Option<int>) returns (dumped: bool, status: int, nr: nat, newfd: int)
    ensures var i := FirstNul(buf);
            if i == |buf| then !dumped && status == -1 && nr == |buf|
            else if i != |buf| - 2 || Meaning(buf[i + 1], control).Dumped? then dumped
            else !dumped && status >= 0 && nr == i && Got(newfd) == Meaning(buf[i + 1], control)
  {
    var ptr := 0;
    dumped, status, nr, newfd := false, -1, |buf|, 0;
    while ptr < nr
      invariant 0 <= ptr <= |buf| && (status == -1 || status >= 0)
      invariant status == -1 ==> nr == |buf| && ptr <= FirstNul(buf)
      invariant status >= 0 ==> nr == FirstNul(buf) == |buf| - 2 < ptr
      invariant status >= 0 ==> status == buf[|buf| - 1] && Meaning(status, control) == Got(newfd)
      decreases if status == -1 then 1 else 0, |buf| - ptr
    {
      ptr := ptr + 1;
      if buf[ptr - 1] == 0 {
        if ptr != nr - 1 {
          dumped := true;
          return;
        }
        status := buf[ptr];
        if status == 0 {
          if control == None {
            dumped := true;
            return;
          }
          newfd := control.value;
        } else {
          newfd := -status;
        }
        nr := nr - 2;
      }
    }
  }

  /** `recv_fd` as the program runs it. */
  method RecvFd(chunks: seq<Chunk>, takes: Consumer) returns (r: Result, data: seq<Byte>)
    ensures (r, data) == Receive(chunks, takes)
  {
    hide FirstNul, Meaning;
    data := [];
    var at := 0;
    assert chunks[0..] == chunks && [] + Receive(chunks, takes).1 == Receive(chunks, takes).1;
    while at < |chunks|
      invariant 0 <= at <= |chunks|
      invariant Receive(chunks, takes) == (Receive(chunks[at..], takes).0, data + Receive(chunks[at..], takes).1)
    {
      ghost var rest := chunks[at..];
      assert rest[1..] == chunks[at + 1..] && data + [] == data;
      if chunks[at].RecvFails? || |chunks[at].bytes| == 0 {
        return Refused, data;
      }
      var buf := chunks[at].bytes;
      var dumped, status, nr, newfd := ScanChunk(buf, chunks[at].control);
      if dumped {
        return Dumped, data;
      }
      ghost var before := data;
      assert status == -1 ==> buf[..nr] == buf;
      if nr > 0 {
        data := data + buf[..nr];
        if !takes(buf[..nr]) {
          return Refused, data;
        }
      }
      if status >= 0 {
        return Got(newfd), data;
      }
      Regroup(before, buf, Receive(chunks[at + 1..], takes).1);
      at := at + 1;
    }
    assert chunks[at..] == [] && data + [] == data;
    return Blocked, data;
  }

  // ---------- every answer of the receiver ----------

  /** Plain data that the caller's function takes: the receiver goes on behind it. */
  predicate Passes(c: Chunk, takes: Consumer) {
    c.Chunk? && c.bytes != [] && 0 !in c.bytes && takes(c.bytes)
  }

  predicate AllPass(chunks: seq<Chunk>, takes: Consumer) {
    forall i :: 0 <= i < |chunks| ==> Passes(chunks[i], takes)
  }

  function DataOf(chunks: seq<Chunk>): seq<Byte> {
    if chunks == [] then [] else (if chunks[0].Chunk? then chunks[0].bytes else []) + DataOf(chunks[1..])
  }

  /** The first NUL of the bytes is the last but one. */
  predicate Closes(bytes: seq<Byte>) {
    |bytes| >= 2 && bytes[|bytes| - 2] == 0 && 0 !in bytes[..|bytes| - 2]
  }

  /** The answer that the first other piece brings, and the data it adds: a failed or closed connection and a
      function that refuses are -1; a NUL anywhere but in front of the last byte, and a zero status without a
      descriptor, stop the program. */
  function Verdict(c: Chunk, takes: Consumer): (Result, seq<Byte>) {
    if c.RecvFails? || c.bytes == [] then (Refused, [])
    else if 0 !in c.bytes then (Refused, c.bytes)
    else if !Closes(c.bytes) then (Dumped, [])
    else
      var data, status := c.bytes[..|c.bytes| - 2], c.bytes[|c.bytes| - 1];
      if status == 0 && c.control.None? then (Dumped, [])
      else if data != [] && !takes(data) then (Refused, data)
      else (Got(if status == 0 then c.control.value else -(status as int)), data)
  }

  /** Whatever the connection brings: data that passes is handed over in order, and the first piece that does
      not pass decides; if there is none the receiver waits. */
  lemma {:induction false} ReceiveIs(before: seq<Chunk>, after: seq<Chunk>, takes: Consumer)
    requires AllPass(before, takes) && (after != [] ==> !Passes(after[0], takes))
    ensures Receive(before + after, takes)
         == if after == [] then (Blocked, DataOf(before))
            else (Verdict(after[0], takes).0, DataOf(before) + Verdict(after[0], takes).1)
  {
    hide Verdict, Meaning;
    if before == [] {
      assert before + after == after;
      if after != [] {
        VerdictIs(after, takes);
        assert [] + Verdict(after[0], takes).1 == Verdict(after[0], takes).1;
      }
    } else {
      assert (before + after)[1..] == before[1..] + after;
      ReceiveIs(before[1..], after, takes);
      assert Passes(before[0], takes) && FirstNul(before[0].bytes) == |before[0].bytes|;
      Regroup(before[0].bytes, DataOf(before[1..]), if after == [] then [] else Verdict(after[0], takes).1);
      assert DataOf(before) + [] == DataOf(before) && DataOf(before[1..]) + [] == DataOf(before[1..]);
    }
  }

  lemma VerdictIs(chunks: seq<Chunk>, takes: Consumer)
    requires chunks != [] && !Passes(chunks[0], takes)
    ensures Receive(chunks, takes) == Verdict(chunks[0], takes)
  {
    if chunks[0].Chunk? {
      FirstNulIs(chunks[0].bytes);
      hide FirstNul;
    }
  }

  lemma FirstNulIs(bytes: seq<Byte>)
    ensures FirstNul(bytes) == |bytes| <==> 0 !in bytes
    ensures 0 in bytes ==> (FirstNul(bytes) == |bytes| - 2 <==> Closes(bytes))
  {
    hide FirstNul;
    var i := FirstNul(bytes);
    assert forall j :: 0 <= j < |bytes| - 2 ==> bytes[..|bytes| - 2][j] == bytes[j];
  }

  lemma Regroup(a: seq<Byte>, b: seq<Byte>, c: seq<Byte>)
    ensures a + (b + c) == a + b + c
  {
  }

  // ---------- both together ----------

  /** A descriptor arrives as such; an error code arrives unchanged if and only if it is a byte's worth. */
  lemma CodeArrivesExactly(fdToSend: int, takes: Consumer)
    ensures Receive([Message(fdToSend)], takes) == (Got(fdToSend), []) <==> fdToSend > 0 || -255 <= fdToSend <= -1
  {
    var m := Message(fdToSend);
    assert m.bytes[..0] == [] && FirstNul(m.bytes) == 0;
  }

  function Joined(chunks: seq<Chunk>): seq<Byte> {
    if chunks == [] then [] else (if chunks[0].Chunk? then chunks[0].bytes else []) + Joined(chunks[1..])
  }

  /** The data and the closing message cut into pieces in some way, the descriptor arriving with the piece
      that holds the first byte of the message. */
  ghost predicate Cut(chunks: seq<Chunk>, data: seq<Byte>, m: Chunk)
    requires m.Chunk?
  {
    && chunks != [] && Joined(chunks) == data + m.bytes
    && (forall i :: 0 <= i < |chunks| ==> chunks[i].Chunk? && chunks[i].bytes != [])
    && (|chunks[|chunks| - 1].bytes| >= 2 ==> chunks[|chunks| - 1].control == m.control)
  }

  /** What the receiver should get. */
  function Sent(data: seq<Byte>, fdToSend: int): (r: (Result, seq<Byte>))
    ensures r.0.Got?
  {
    (Meaning(StatusByte(fdToSend), Message(fdToSend).control), data)
  }

  ghost predicate TakesAll(takes: Consumer) {
    forall bytes :: takes(bytes)
  }

  /** The message at the end of a piece. */
  lemma TrailerWhole(c: Chunk, rest: seq<Chunk>, data: seq<Byte>, fdToSend: int, takes: Consumer)
    requires 0 !in data && TakesAll(takes)
    requires c.Chunk? && c.bytes == data + Message(fdToSend).bytes && c.control == Message(fdToSend).control
    ensures Receive([c] + rest, takes) == Sent(data, fdToSend)
  {
    hide FirstNul, StatusByte;
    assert c.bytes == data + [0] + Message(fdToSend).bytes[1..];
    NulOnlyInTrailer(c.bytes, data);
    assert c.bytes[..|data|] == data;
  }

  lemma TrailerSplit(c: Chunk, rest: seq<Chunk>, data: seq<Byte>, takes: Consumer)
    requires 0 !in data && c.Chunk? && c.bytes == data + [0]
    ensures Receive([c] + rest, takes).0 == Dumped
  {
    hide FirstNul;
    NulOnlyInTrailer(c.bytes, data);
  }

  lemma DataPiece(c: Chunk, rest: seq<Chunk>, takes: Consumer)
    requires c.Chunk? && c.bytes != [] && 0 !in c.bytes
    ensures Receive([c] + rest, takes)
            == if takes(c.bytes) then (Receive(rest, takes).0, c.bytes + Receive(rest, takes).1) else (Refused, c.bytes)
  {
    NoNul(c.bytes);
    assert ([c] + rest)[1..] == rest;
  }

  /** Data without NULs: the receiver gets all of it if the two closing bytes arrive in one piece, and gives up
      otherwise. */
  lemma {:induction false} CleanData(chunks: seq<Chunk>, data: seq<Byte>, fdToSend: int, takes: Consumer)
    requires 0 !in data && Cut(chunks, data, Message(fdToSend)) && TakesAll(takes)
    ensures var last := chunks[|chunks| - 1].bytes;
            if |last| >= 2 then Receive(chunks, takes) == Sent(data, fdToSend) else Receive(chunks, takes).0 == Dumped
    decreases |chunks|
  {
    hide StatusByte, Receive, Meaning;
    var m := Message(fdToSend);
    var first, rest := chunks[0].bytes, chunks[1..];
    assert chunks == [chunks[0]] + rest;
    AtLeastOneEach(rest);
    if rest == [] {
      TrailerWhole(chunks[0], rest, data, fdToSend, takes);
    } else if |first| <= |data| {
      CutTheRest(chunks, data, m);
      DataPiece(chunks[0], rest, takes);
      CleanData(rest, data[|first|..], fdToSend, takes);
      assert first + data[|first|..] == data;
    } else {
      // The NUL alone ends the first piece, and one byte is left for the last.
      assert first == (first + Joined(rest))[..|first|] == data + [0];
      TrailerSplit(chunks[0], rest, data, takes);
    }
  }

  /** Data with a NUL: whatever the cut, not all of it is handed over. */
  lemma {:induction false} NulStopsShort(chunks: seq<Chunk>, data: seq<Byte>, m: Chunk, takes: Consumer)
    requires m.Chunk? && m.bytes != [] && m.bytes[0] == 0 && 0 in data && Cut(chunks, data, m) && |m.bytes| == 2
    ensures |Receive(chunks, takes).1| < |data|
    decreases |chunks|
  {
    var first, rest := chunks[0].bytes, chunks[1..];
    assert chunks == [chunks[0]] + rest;
    AtLeastOneEach(rest);
    if rest != [] && |first| <= |data| {
      CutTheRest(chunks, data, m);
      if 0 in first {
        StopsAtNul(chunks, takes);
      } else {
        hide Receive;
        DataPiece(chunks[0], rest, takes);
        assert data == first + data[|first|..];
        NulStopsShort(rest, data[|first|..], m, takes);
      }
    } else {
      assert data == (data + m.bytes)[..|data|] == (first + Joined(rest))[..|data|] == first[..|data|];
      NulWithin(first, data);
      StopsAtNul(chunks, takes);
    }
  }

  lemma StopsAtNul(chunks: seq<Chunk>, takes: Consumer)
    requires chunks != [] && chunks[0].Chunk? && 0 in chunks[0].bytes
    ensures |Receive(chunks, takes).1| <= FirstNul(chunks[0].bytes) < |chunks[0].bytes|
  {
    NulWithin(chunks[0].bytes, chunks[0].bytes);
  }

  lemma NulWithin(bytes: seq<Byte>, data: seq<Byte>)
    requires data <= bytes && 0 in data
    ensures FirstNul(bytes) < |data| && 0 in bytes
  {
    var j :| 0 <= j < |data| && data[j] == 0;
    assert bytes[j] == 0;
  }

  /** For every data, every closing message and every way of cutting them into pieces, the receiver gets the
      code and all the data in order if and only if there is no NUL in the data and the two closing bytes
      arrive in one piece. */
  lemma WholeTrailerExactly(chunks: seq<Chunk>, data: seq<Byte>, fdToSend: int, takes: Consumer)
    requires Cut(chunks, data, Message(fdToSend)) && TakesAll(takes)
    ensures Receive(chunks, takes) == Sent(data, fdToSend) <==> 0 !in data && |chunks[|chunks| - 1].bytes| >= 2
  {
    hide Receive, StatusByte;
    if 0 in data {
      NulStopsShort(chunks, data, Message(fdToSend), takes);
    } else {
      CleanData(chunks, data, fdToSend, takes);
    }
  }

  /** Behind a piece of data only the rest of the data and the message are left. */
  lemma CutTheRest(chunks: seq<Chunk>, data: seq<Byte>, m: Chunk)
    requires m.Chunk? && Cut(chunks, data, m) && |chunks| > 1 && |chunks[0].bytes| <= |data|
    ensures var n := |chunks[0].bytes|;
            chunks[0].bytes == data[..n] && Cut(chunks[1..], data[n..], m)
  {
    var first, rest := chunks[0].bytes, chunks[1..];
    assert first + Joined(rest) == data + m.bytes;
    assert first == (data + m.bytes)[..|first|] == data[..|first|];
    assert Joined(rest) == (data + m.bytes)[|first|..] == data[|first|..] + m.bytes;
  }

  lemma {:induction false} AtLeastOneEach(chunks: seq<Chunk>)
    requires forall i :: 0 <= i < |chunks| ==> chunks[i].Chunk? && chunks[i].bytes != []
    ensures |Joined(chunks)| >= |chunks|
    ensures |chunks| == 1 ==> Joined(chunks) == chunks[0].bytes
  {
    if chunks != [] {
      AtLeastOneEach(chunks[1..]);
    }
  }

  lemma NulOnlyInTrailer(bytes: seq<Byte>, data: seq<Byte>)
    requires data + [0] <= bytes && 0 !in data
    ensures FirstNul(bytes) == |data|
  {
    hide FirstNul;
    assert bytes[|data|] == (data + [0])[|data|];
    assert forall j :: 0 <= j < |data| ==> bytes[j] == (data + [0])[j] == data[j] && data[j] in data;
  }

  lemma NoNul(bytes: seq<Byte>)
    requires 0 !in bytes
    ensures FirstNul(bytes) == |bytes|
  {
  }
}
