/** The header parser as the program runs it: in place on the receive buffer. */
module HttpParser {
  import opened Common
  import opened HttpHeader

  class ResponseParser {
    const buffer: array<char>
    var checkedIndex: nat
    var startLine: nat
    var checkState: CheckState
    var contentLength: int

    constructor (size: nat)
      ensures fresh(buffer) && buffer.Length == size && contentLength == 0
      ensures Seen(0) == Parser("", 0, 0, StatusLine, 0) && Ok(Seen(0))
    {
      buffer := new char[size];
      checkedIndex, startLine, checkState, contentLength := 0, 0, StatusLine, 0;
    }

    /** The parser when `readIndex` bytes have been received. */
    ghost function Seen(readIndex: nat): Parser
      requires readIndex <= buffer.Length
      reads this, buffer
    {
      Parser(buffer[..readIndex], checkedIndex, startLine, checkState, contentLength)
    }

    /** `parse_line` */
    method ParseOneLine(readIndex: nat) returns (status: LineStatus)
      requires checkedIndex <= readIndex <= buffer.Length
      modifies this`checkedIndex, buffer
      ensures checkedIndex <= readIndex
      ensures (status, buffer[..readIndex], checkedIndex) == ParseLine(old(buffer[..readIndex]), old(checkedIndex))
      ensures buffer[readIndex..] == old(buffer[readIndex..])
    {
      ghost var was := buffer[..readIndex];
      while checkedIndex < readIndex
        invariant checkedIndex <= readIndex
        invariant buffer[..] == old(buffer[..])
        invariant ParseLine(was, checkedIndex) == ParseLine(was, old(checkedIndex))
      {
        var temp := buffer[checkedIndex];
        if temp == '\r' {
          if checkedIndex + 1 == readIndex {
            return LineOpen;
          } else if buffer[checkedIndex + 1] == '\n' {
            buffer[checkedIndex] := '\0';
            buffer[checkedIndex + 1] := '\0';
            assert buffer[..readIndex] == CutAt(was, checkedIndex);
            checkedIndex := checkedIndex + 2;
            return LineOk;
          }
          return LineBad;
        } else if temp == '\n' {
          if checkedIndex > 1 && buffer[checkedIndex - 1] == '\r' {
            buffer[checkedIndex - 1] := '\0';
            buffer[checkedIndex] := '\0';
            assert buffer[..readIndex] == CutAt(was, checkedIndex - 1);
            checkedIndex := checkedIndex + 1;
            return LineOk;
          }
          return LineBad;
        }
        checkedIndex := checkedIndex + 1;
      }
      return LineOpen;
    }

    /** `parse_responseline` */
    method ParseResponseLine(lib: Library, szTemp: nat, readIndex: nat) returns (code: Code)
      requires szTemp <= readIndex <= buffer.Length
      modifies this`checkState, buffer
      ensures (buffer[..readIndex], code != BadHeader) == ParseStatus(lib, old(buffer[..readIndex]), szTemp)
      ensures checkState == if code == BadHeader then old(checkState) else HeaderLine
      ensures code == BadHeader || code == NeedHeader
      ensures buffer[readIndex..] == old(buffer[readIndex..])
    {
      var line := CString(buffer[..readIndex], szTemp);
      var szUrl := FirstOf(line, ' ', '\t');
      if szUrl == |line| {
        return BadHeader;
      }
      buffer[szTemp + szUrl] := '\0';
      assert buffer[..readIndex] == old(buffer[..readIndex])[szTemp + szUrl := '\0'];
      if !lib.isVersion(line[..szUrl]) {
        return BadHeader;
      }
      if !lib.isOk(SkipBlanks(line[szUrl + 1..])) {
        return BadHeader;
      }
      checkState := HeaderLine;
      return NeedHeader;
    }

    /** `parse_response_headers` */
    method ParseResponseHeaders(lib: Library, szTemp: nat, readIndex: nat) returns (code: Code)
      requires szTemp <= readIndex <= buffer.Length
      requires szTemp + |CString(buffer[..readIndex], szTemp)| + 1 < readIndex
      modifies this`contentLength, buffer
      ensures (buffer[..readIndex], contentLength, code == GetHeader)
              == ParseField(lib, old(buffer[..readIndex]), szTemp, old(contentLength))
      ensures code == GetHeader || code == NeedHeader
      ensures buffer[readIndex..] == old(buffer[readIndex..])
    {
      hide CString, FirstOf, OnlyBlanked;
      var line := CString(buffer[..readIndex], szTemp);
      if line == "" {
        return GetHeader;
      }
      var tmp := FirstOf(line, ':', ':');
      if tmp < |line| {
        buffer[szTemp + tmp] := '\0';
        buffer[szTemp + tmp + 1] := '\0';
        assert buffer[..readIndex] == CutAt(old(buffer[..readIndex]), szTemp + tmp);
        if lib.isLength(line[..tmp]) {
          contentLength := lib.toInt(CString(buffer[..readIndex], szTemp + tmp + 2));
        }
      }
      return NeedHeader;
    }

    /** The switch on the check state, for the line that `ParseOneLine` has just ended. */
    method HandleLine(lib: Library, readIndex: nat) returns (code: Code)
      requires readIndex <= buffer.Length && LineEnded(Seen(readIndex))
      modifies this, buffer
      ensures var v := FinishLine(lib, old(Seen(readIndex)));
              Seen(readIndex) == v.parser && code == if v.Stop? then v.code else NeedHeader
      ensures buffer[readIndex..] == old(buffer[readIndex..])
    {
      hide CString, ParseStatus, ParseField, OnlyBlanked;
      CStringEnds(buffer[..readIndex], startLine, checkedIndex - 2);
      var szTemp := startLine;
      startLine := checkedIndex;
      match checkState {
        case StatusLine => code := ParseResponseLine(lib, szTemp, readIndex);
        case HeaderLine => code := ParseResponseHeaders(lib, szTemp, readIndex);
        case Content => code := InternalError;
      }
    }

    /** One pass of the loop of `parse_response_content`: scan a line and handle it. `more` says that the loop
        goes on. */
    method NextLine(lib: Library, readIndex: nat) returns (more: bool, code: Code)
      requires readIndex <= buffer.Length && Ok(Seen(readIndex))
      modifies this, buffer
      ensures Ok(Seen(readIndex)) && (more ==> checkedIndex > old(checkedIndex))
      ensures ParseContent(lib, old(Seen(readIndex)))
              == if more then ParseContent(lib, Seen(readIndex)) else (code, Seen(readIndex))
      ensures buffer[readIndex..] == old(buffer[readIndex..])
    {
      hide ParseLine, FinishLine, OnlyBlanked, CutAt, CString, ParseStatus, ParseField;
      ghost var m := Seen(readIndex);
      ParseLineFacts(m.buf, m.checked);
      var status := ParseOneLine(readIndex);
      if status != LineOk {
        code := if status == LineOpen then NeedHeader else BadHeader;
        return false, code;
      }
      code := HandleLine(lib, readIndex);
      more := code == NeedHeader;
    }

    /** `parse_response_content` */
    method ParseResponseContent(lib: Library, readIndex: nat) returns (code: Code)
      requires readIndex <= buffer.Length && Ok(Seen(readIndex))
      modifies this, buffer
      ensures (code, Seen(readIndex)) == ParseContent(lib, old(Seen(readIndex)))
      ensures Ok(Seen(readIndex))
      ensures buffer[readIndex..] == old(buffer[readIndex..])
    {
      hide ParseContent;
      var more;
      more, code := NextLine(lib, readIndex);
      while more
        invariant Ok(Seen(readIndex)) && buffer[readIndex..] == old(buffer[readIndex..])
        invariant ParseContent(lib, old(Seen(readIndex)))
                  == if more then ParseContent(lib, Seen(readIndex)) else (code, Seen(readIndex))
        decreases readIndex - checkedIndex, more
      {
        more, code := NextLine(lib, readIndex);
      }
    }
  }

  lemma ConcatNext(pieces: seq<string>, i: nat)
    requires i < |pieces|
    ensures pieces[i..][0] == pieces[i] && pieces[i..][1..] == pieces[i + 1..]
    ensures Concat(pieces[i..]) == pieces[i] + Concat(pieces[i + 1..])
  {
    assert pieces[i..][1..] == pieces[i + 1..];
  }

  /** The receiving side: each piece is stored behind the last and the parser is called, until it no longer
      needs more. */
  method Receive(lib: Library, p: ResponseParser, pieces: seq<string>) returns (code: Code, readIndex: nat)
    requires p.Seen(0) == Parser("", 0, 0, StatusLine, 0)
    requires |Concat(pieces)| <= p.buffer.Length
    modifies p, p.buffer
    ensures readIndex <= p.buffer.Length && (code, p.Seen(readIndex)) == Feed(lib, old(p.Seen(0)), pieces)
  {
    hide ParseContent, Concat;
    var i := 0;
    code, readIndex := NeedHeader, 0;
    assert pieces[0..] == pieces;
    while i < |pieces|
      invariant 0 <= i <= |pieces| && readIndex + |Concat(pieces[i..])| <= p.buffer.Length
      invariant code == NeedHeader && Ok(p.Seen(readIndex))
      invariant Feed(lib, p.Seen(readIndex), pieces[i..]) == Feed(lib, old(p.Seen(0)), pieces)
    {
      ghost var m, rest := p.Seen(readIndex), pieces[i..];
      var piece := pieces[i];
      ConcatNext(pieces, i);
      forall k | 0 <= k < |piece| {
        p.buffer[readIndex + k] := piece[k];
      }
      readIndex := readIndex + |piece|;
      assert p.Seen(readIndex) == Longer(m, piece);
      code := p.ParseResponseContent(lib, readIndex);
      i := i + 1;
      if code != NeedHeader {
        return;
      }
    }
  }
}
