/** The resumable HTTP response header parser, as a function on what the buffer holds so far. */
module HttpHeader {
  import opened Common

  datatype LineStatus = LineOk | LineOpen | LineBad

  datatype Code = NeedHeader | GetHeader | BadHeader | InternalError

  datatype CheckState = StatusLine | HeaderLine | Content

  /** The C library calls on the text of one line, left uninterpreted: strcasecmp with "HTTP/1.1" and
      with "Content-Length", sscanf of the status, atoi. */
  datatype Library = Library(
    isVersion: string -> bool, isLength: string -> bool, isOk: string -> bool, toInt: string -> int)

  /** `buf` is the part of the buffer received so far, with the parser's own writes in it. */
  datatype Parser = Parser(buf: string, checked: nat, start: nat, state: CheckState, length: int)

  // ---------- one line ----------

  /** `parse_line` from index `ci` on: the status, the buffer with line ends overwritten, the new index. */
  function ParseLine(buf: string, ci: nat): (r: (LineStatus, string, nat))
    requires ci <= |buf|
    ensures |r.1| == |buf| && ci <= r.2 <= |buf|
    decreases |buf| - ci
  {
    if ci == |buf| then (LineOpen, buf, ci)
    else if buf[ci] == '\r' then
      if ci + 1 == |buf| then (LineOpen, buf, ci)
      else if buf[ci + 1] == '\n' then (LineOk, CutAt(buf, ci), ci + 2)
      else (LineBad, buf, ci)
    else if buf[ci] == '\n' then
      if ci > 1 && buf[ci - 1] == '\r' then (LineOk, CutAt(buf, ci - 1), ci + 1)
      else (LineBad, buf, ci)
    else ParseLine(buf, ci + 1)
  }

  /** The text a C function sees at position `p`: up to the first NUL. */
  function CString(buf: string, p: nat): (s: string)
    requires p <= |buf|
    ensures p + |s| <= |buf| && s == buf[p..p + |s|] && '\0' !in s
    ensures p + |s| < |buf| ==> buf[p + |s|] == '\0'
    decreases |buf| - p
  {
    if p == |buf| || buf[p] == '\0' then "" else [buf[p]] + CString(buf, p + 1)
  }

  /** `strpbrk`: the first position holding one of two characters, or the length. */
  function FirstOf(s: string, c: char, d: char): (i: nat)
    ensures i <= |s| && (i < |s| ==> s[i] == c || s[i] == d)
    ensures forall j :: 0 <= j < i ==> s[j] != c && s[j] != d
  {
    if s == "" || s[0] == c || s[0] == d then 0 else 1 + FirstOf(s[1..], c, d)
  }

  predicate Blank(c: char) {
    c == ' ' || c == '\t'
  }

  /** `strspn` over blanks */
  function SkipBlanks(s: string): string {
    if s != "" && (s[0] == ' ' || s[0] == '\t') then SkipBlanks(s[1..]) else s
  }

  /** It is the rest of the text behind its leading blanks. */
  lemma {:induction false} SkipBlanksIs(s: string)
    ensures var r := SkipBlanks(s);
            && |r| <= |s| && r == s[|s| - |r|..] && (r != "" ==> !Blank(r[0]))
            && forall j :: 0 <= j < |s| - |r| ==> Blank(s[j])
  {
    if s != "" && Blank(s[0]) {
      var r := SkipBlanks(s[1..]);
      SkipBlanksIs(s[1..]);
      assert s[1..][|s| - 1 - |r|..] == s[|s| - |r|..];
      assert forall j :: 0 < j < |s| ==> s[j] == s[1..][j - 1];
    }
  }

  /** Handling the line at `start` may overwrite bytes of the line with NULs and nothing else. */
  ghost predicate OnlyBlanked(buf: string, b: string, start: nat, end: nat) {
    && |b| == |buf|
    && (forall k :: 0 <= k < |buf| ==> b[k] == buf[k] || (start <= k <= end && b[k] == '\0'))
  }

  function NulAt(buf: string, k: nat): (cut: string)
    requires k < |buf|
    ensures |cut| == |buf|
  {
    buf[k := '\0']
  }

  /** `parse_responseline`: the buffer it leaves, and whether the line is accepted. */
  function ParseStatus(lib: Library, buf: string, start: nat): (r: (string, bool))
    requires start <= |buf|
    ensures OnlyBlanked(buf, r.0, start, start + |CString(buf, start)|)
  {
    var line := CString(buf, start);
    var i := FirstOf(line, ' ', '\t');
    if i == |line| then (buf, false)
    else (NulAt(buf, start + i), lib.isVersion(line[..i]) && lib.isOk(SkipBlanks(line[i + 1..])))
  }

  /** Both bytes from `k` on overwritten, as the parser does at a colon */
  function CutAt(buf: string, k: nat): (cut: string)
    requires k + 1 < |buf|
    ensures |cut| == |buf|
  {
    buf[k := '\0'][k + 1 := '\0']
  }

  /** `parse_response_headers`: the buffer and content length it leaves, and whether the header ended. */
  function ParseField(lib: Library, buf: string, start: nat, length: int): (r: (string, int, bool))
    requires start <= |buf| && start + |CString(buf, start)| + 1 < |buf|
    ensures OnlyBlanked(buf, r.0, start, start + |CString(buf, start)|)
  {
    var line := CString(buf, start);
    if line == "" then (buf, length, true)
    else
      var i := FirstOf(line, ':', ':');
      if i == |line| then (buf, length, false) else SplitField(lib, buf, start + i, line[..i], length)
  }

  /** The field with this name and its colon at `k`: the name and the value are cut apart in place. */
  function SplitField(lib: Library, buf: string, k: nat, name: string, length: int): (r: (string, int, bool))
    requires k + 1 < |buf|
    ensures |r.0| == |buf|
  {
    var split := CutAt(buf, k);
    (split, if lib.isLength(name) then lib.toInt(CString(split, k + 2)) else length, false)
  }

  /** Which bytes the two handlers overwrite: the first blank of a status line; a colon and the byte behind it. */
  lemma HandlersWrite(lib: Library, buf: string, start: nat, length: int)
    requires start <= |buf| && start + |CString(buf, start)| + 1 < |buf|
    ensures var line := CString(buf, start);
            var i, j := FirstOf(line, ' ', '\t'), FirstOf(line, ':', ':');
            forall k :: 0 <= k < |buf| ==>
              && ParseStatus(lib, buf, start).0[k] == (if i < |line| && k == start + i then '\0' else buf[k])
              && ParseField(lib, buf, start, length).0[k]
                 == if j < |line| && start + j <= k <= start + j + 1 then '\0' else buf[k]
  {
    hide CString, FirstOf;
  }

  // ---------- the loop ----------

  /** The last byte consumed is not a carriage return, so a line feed met next has none before it. */
  ghost predicate Ok(m: Parser) {
    m.start <= m.checked <= |m.buf| && (m.checked > 0 ==> m.buf[m.checked - 1] != '\r')
  }

  /** What one scan leaves: bytes at and after the new index are untouched, a finished line ends in two
      NULs, and the branch for a line feed after a consumed carriage return was not taken. */
  lemma {:induction false} ParseLineFacts(buf: string, ci: nat)
    requires ci <= |buf| && (ci > 0 ==> buf[ci - 1] != '\r')
    ensures var (st, b, ci') := ParseLine(buf, ci);
            && b[..ci] == buf[..ci] && b[ci'..] == buf[ci'..]
            && (st != LineOk ==> b == buf && (ci' > 0 ==> b[ci' - 1] != '\r'))
            && (st == LineOk ==> ci + 2 <= ci' && buf[ci' - 2] == '\r' && buf[ci' - 1] == '\n'
                                 && b == buf[ci' - 2 := '\0'][ci' - 1 := '\0'])
    decreases |buf| - ci
  {
    if ci < |buf| && buf[ci] != '\r' && buf[ci] != '\n' {
      ParseLineFacts(buf, ci + 1);
      var (st, b, ci') := ParseLine(buf, ci);
      assert b[..ci] == b[..ci + 1][..ci] && buf[..ci + 1][..ci] == buf[..ci];
    }
  }

  lemma {:induction false} CStringEnds(buf: string, p: nat, q: nat)
    requires p <= q < |buf| && buf[q] == '\0'
    ensures p + |CString(buf, p)| <= q
    decreases q - p
  {
    if p < q && buf[p] != '\0' {
      CStringEnds(buf, p + 1, q);
    }
  }

  lemma BlankedWithin(buf: string, b: string, start: nat, end: nat, ending: nat)
    requires b == buf || OnlyBlanked(buf, b, start, end)
    requires end <= ending && ending + 1 < |buf|
    ensures OnlyBlanked(buf, b, start, ending) && |b| == |buf| && b[ending + 1] == buf[ending + 1]
  {
  }

  datatype Verdict = Stop(code: Code, parser: Parser) | Continue(parser: Parser)

  ghost predicate LineEnded(m: Parser) {
    m.start + 2 <= m.checked <= |m.buf| && m.buf[m.checked - 2] == m.buf[m.checked - 1] == '\0'
  }

  /** The switch on the check state, for the line that has just ended. */
  function FinishLine(lib: Library, m: Parser): (v: Verdict)
    requires LineEnded(m)
    ensures OnlyBlanked(m.buf, v.parser.buf, m.start, m.checked - 2)
    ensures v.parser.checked == v.parser.start == m.checked
    ensures |v.parser.buf| == |m.buf| && v.parser.buf[m.checked - 1] == '\0'
    ensures v.Stop? ==> v.code != NeedHeader
  {
    hide CString, ParseStatus, ParseField, OnlyBlanked;
    var b, ci := m.buf, m.checked;
    CStringEnds(b, m.start, ci - 2);
    BlankedWithin(b, b, m.start, m.start, ci - 2);
    match m.state
    case StatusLine =>
      var status := ParseStatus(lib, b, m.start);
      BlankedWithin(b, status.0, m.start, m.start + |CString(b, m.start)|, ci - 2);
      if !status.1 then Stop(BadHeader, Parser(status.0, ci, ci, m.state, m.length))
      else Continue(Parser(status.0, ci, ci, HeaderLine, m.length))
    case HeaderLine =>
      var field := ParseField(lib, b, m.start, m.length);
      BlankedWithin(b, field.0, m.start, m.start + |CString(b, m.start)|, ci - 2);
      if field.2 then Stop(GetHeader, Parser(field.0, ci, ci, m.state, field.1))
      else Continue(Parser(field.0, ci, ci, m.state, field.1))
    case Content => Stop(InternalError, m.(start := ci))
  }

  /** `parse_response_content` */
  function ParseContent(lib: Library, m: Parser): (r: (Code, Parser))
    requires Ok(m)
    ensures Ok(r.1) && |r.1.buf| == |m.buf| && m.checked <= r.1.checked
    decreases |m.buf| - m.checked
  {
    ParseLineFacts(m.buf, m.checked);
    var (st, b, ci) := ParseLine(m.buf, m.checked);
    var m' := m.(buf := b, checked := ci);
    if st != LineOk then (if st == LineOpen then NeedHeader else BadHeader, m')
    else
      var v := FinishLine(lib, m');
      if v.Stop? then (v.code, v.parser) else ParseContent(lib, v.parser)
  }

  // ---------- more bytes behind ----------

  lemma {:induction false} ParseLineMore(buf: string, y: string, ci: nat)
    requires ci <= |buf|
    ensures var (st, b, ci') := ParseLine(buf, ci);
            if st == LineOpen then ParseLine(buf + y, ci) == ParseLine(buf + y, ci')
            else ParseLine(buf + y, ci) == (st, b + y, ci')
    decreases |buf| - ci
  {
    if ci < |buf| {
      var more := buf + y;
      assert more[ci] == buf[ci] && (ci > 0 ==> more[ci - 1] == buf[ci - 1]);
      assert ci > 0 ==> more[ci - 1 := '\0'][ci := '\0'] == buf[ci - 1 := '\0'][ci := '\0'] + y;
      if ci + 1 < |buf| {
        assert more[ci := '\0'][ci + 1 := '\0'] == buf[ci := '\0'][ci + 1 := '\0'] + y;
      }
      if buf[ci] != '\r' && buf[ci] != '\n' {
        ParseLineMore(buf, y, ci + 1);
      }
    }
  }

  lemma {:induction false} CStringMore(buf: string, y: string, p: nat)
    requires p <= |buf| && p + |CString(buf, p)| < |buf|
    ensures CString(buf + y, p) == CString(buf, p)
    decreases |buf| - p
  {
    if buf[p] != '\0' {
      CStringMore(buf, y, p + 1);
    }
  }

  lemma CutMore(b: string, y: string, k: nat, q: nat)
    requires k + 1 < q < |b| && b[q] == '\0'
    ensures var split := CutAt(b, k);
            CutAt(b + y, k) == split + y && CString(split + y, k + 2) == CString(split, k + 2)
  {
    hide CString;
    var split := CutAt(b, k);
    assert CutAt(b + y, k) == split + y;
    CStringEnds(split, k + 2, q);
    CStringMore(split, y, k + 2);
  }

  lemma FieldMore(lib: Library, b: string, y: string, start: nat, length: int, q: nat)
    requires start <= |b| && start + |CString(b, start)| < q < |b| && b[q] == '\0'
    ensures start + |CString(b + y, start)| + 1 < |b + y|
    ensures ParseField(lib, b + y, start, length).0 == ParseField(lib, b, start, length).0 + y
    ensures ParseField(lib, b + y, start, length).1 == ParseField(lib, b, start, length).1
    ensures ParseField(lib, b + y, start, length).2 == ParseField(lib, b, start, length).2
  {
    hide CString, FirstOf, OnlyBlanked, SplitField;
    CStringMore(b, y, start);
    var line := CString(b, start);
    var i := FirstOf(line, ':', ':');
    if line != "" && i < |line| {
      SplitMore(lib, b, y, start + i, line[..i], length, q);
    }
  }

  lemma SplitMore(lib: Library, b: string, y: string, k: nat, name: string, length: int, q: nat)
    requires k + 1 < q < |b| && b[q] == '\0'
    ensures SplitField(lib, b + y, k, name, length)
         == var field := SplitField(lib, b, k, name, length); (field.0 + y, field.1, field.2)
  {
    hide CString, CutAt;
    CutMore(b, y, k, q);
  }

  lemma NulMore(b: string, y: string, k: nat)
    requires k < |b|
    ensures NulAt(b + y, k) == NulAt(b, k) + y
  {
  }

  lemma StatusMore(lib: Library, b: string, y: string, start: nat)
    requires start <= |b| && start + |CString(b, start)| < |b|
    ensures ParseStatus(lib, b + y, start).0 == ParseStatus(lib, b, start).0 + y
    ensures ParseStatus(lib, b + y, start).1 == ParseStatus(lib, b, start).1
  {
    hide CString, FirstOf, OnlyBlanked, SkipBlanks, NulAt;
    CStringMore(b, y, start);
    var line := CString(b, start);
    var i := FirstOf(line, ' ', '\t');
    if i < |line| {
      NulMore(b, y, start + i);
    }
  }

  function Longer(m: Parser, y: string): Parser {
    m.(buf := m.buf + y)
  }

  lemma FinishMore(lib: Library, m: Parser, y: string)
    requires LineEnded(m)
    ensures LineEnded(Longer(m, y))
    ensures var v := FinishLine(lib, m);
            FinishLine(lib, Longer(m, y)) == v.(parser := Longer(v.parser, y))
  {
    hide ParseStatus, ParseField, CString, OnlyBlanked;
    CStringEnds(m.buf, m.start, m.checked - 2);
    StatusMore(lib, m.buf, y, m.start);
    FieldMore(lib, m.buf, y, m.start, m.length, m.checked - 1);
  }

  /** Bytes the scan passed over without an answer need not be scanned again. */
  lemma ParseResumes(lib: Library, m: Parser, ci: nat)
    requires Ok(m) && Ok(m.(checked := ci)) && ParseLine(m.buf, m.checked) == ParseLine(m.buf, ci)
    ensures ParseContent(lib, m) == ParseContent(lib, m.(checked := ci))
  {
    hide OnlyBlanked, ParseLine, ParseStatus, ParseField;
    ParseLineFacts(m.buf, m.checked);
    var (st, b, end) := ParseLine(m.buf, m.checked);
    ParseLineFacts(m.buf, ci);
  }

  /** One call on the bytes so far says what a call on more bytes will do: if it needs more, the longer
      call goes on from where it stopped; otherwise the longer call stops at the same place with the
      same answer. */
  lemma {:induction false} ParseMore(lib: Library, m: Parser, y: string)
    requires Ok(m)
    ensures var (code, m') := ParseContent(lib, m);
            && Ok(Longer(m, y)) && Ok(Longer(m', y))
            && ParseContent(lib, Longer(m, y))
               == if code == NeedHeader then ParseContent(lib, Longer(m', y)) else (code, Longer(m', y))
    decreases |m.buf| - m.checked
  {
    hide OnlyBlanked, ParseLine, FinishLine;
    var (st, b, ci) := ParseLine(m.buf, m.checked);
    ParseLineFacts(m.buf, m.checked);
    ParseLineMore(m.buf, y, m.checked);
    assert Ok(Longer(m, y));
    if st == LineOpen {
      ParseResumes(lib, Longer(m, y), ci);
    } else if st == LineOk {
      ParseLineFacts(m.buf + y, m.checked);
      FinishMore(lib, m.(buf := b, checked := ci), y);
      var v := FinishLine(lib, m.(buf := b, checked := ci));
      if v.Continue? {
        ParseMore(lib, v.parser, y);
      }
    }
  }

  // ---------- any way of delivering the bytes ----------

  /** The caller appends each piece to the buffer and calls the parser, until it no longer needs more. */
  function Feed(lib: Library, m: Parser, pieces: seq<string>): (Code, Parser)
    requires Ok(m)
    decreases |pieces|
  {
    if pieces == [] then (NeedHeader, m)
    else
      var (code, m') := ParseContent(lib, Longer(m, pieces[0]));
      if code == NeedHeader then Feed(lib, m', pieces[1..]) else (code, m')
  }

  /** Equal but for bytes of the buffer that one of them has not received yet. */
  ghost predicate SameUpToUnread(short: Parser, long: Parser) {
    short.buf <= long.buf && long == short.(buf := long.buf)
  }

  /** The first answer other than "need more", the index reached, the content length and the bytes
      overwritten do not depend on how the input is cut into pieces. */
  lemma {:induction false} ChunkingDoesNotMatter(lib: Library, m: Parser, pieces: seq<string>)
    requires Ok(m) && pieces != []
    ensures var (code, cut) := Feed(lib, m, pieces);
            var (whole, all) := ParseContent(lib, Longer(m, Concat(pieces)));
            code == whole && SameUpToUnread(cut, all)
    decreases |pieces|
  {
    var first, rest := pieces[0], pieces[1..];
    var (code, m') := ParseContent(lib, Longer(m, first));
    ParseMore(lib, Longer(m, first), Concat(rest));
    assert m.buf + first + Concat(rest) == m.buf + Concat(pieces);
    assert Longer(Longer(m, first), Concat(rest)) == Longer(m, Concat(pieces));
    if code == NeedHeader {
      if rest == [] {
        assert Longer(m', "") == m';
        assert Longer(m, Concat(pieces)) == Longer(m, first);
      } else {
        ChunkingDoesNotMatter(lib, m', rest);
      }
    }
  }

  // ---------- the same answers from the bytes as received ----------

  /** The first carriage return or line feed at or after `p`, or the end. */
  function LineEnd(t: string, p: nat): (k: nat)
    requires p <= |t|
    ensures p <= k <= |t| && (k < |t| ==> t[k] == '\r' || t[k] == '\n')
    ensures forall j :: p <= j < k ==> t[j] != '\r' && t[j] != '\n'
    decreases |t| - p
  {
    if p == |t| || t[p] == '\r' || t[p] == '\n' then p else LineEnd(t, p + 1)
  }

  function UpToNul(s: string): (r: string)
    ensures |r| <= |s| && r == s[..|r|] && '\0' !in r && (|r| < |s| ==> s[|r|] == '\0')
  {
    if s == "" || s[0] == '\0' then "" else [s[0]] + UpToNul(s[1..])
  }

  datatype Answer = Answer(code: Code, checked: nat, start: nat, length: int)

  function Report(r: (Code, Parser)): Answer {
    Answer(r.0, r.1.checked, r.1.start, r.1.length)
  }

  /** The content length after a header field: the value starts two bytes after the colon. */
  function FieldLength(lib: Library, line: string, length: int): int {
    var text := UpToNul(line);
    var i := FirstOf(text, ':', ':');
    if i == |text| || !lib.isLength(text[..i]) then length
    else lib.toInt(if i + 2 <= |line| then UpToNul(line[i + 2..]) else "")
  }

  predicate StatusFine(lib: Library, text: string) {
    var i := FirstOf(text, ' ', '\t');
    i < |text| && lib.isVersion(text[..i]) && lib.isOk(SkipBlanks(text[i + 1..]))
  }

  datatype Handled = Done(code: Code, length: int) | GoOn(state: CheckState, length: int)

  /** What one line means in each state. */
  function Handle(lib: Library, line: string, state: CheckState, length: int): Handled {
    match state
    case StatusLine => if StatusFine(lib, UpToNul(line)) then GoOn(HeaderLine, length) else Done(BadHeader, length)
    case HeaderLine =>
      if UpToNul(line) == "" then Done(GetHeader, length) else GoOn(HeaderLine, FieldLength(lib, line, length))
    case Content => Done(InternalError, length)
  }

  /** Reading the lines of `t` from `p` on, without ever writing to them. */
  function ReadLines(lib: Library, t: string, p: nat, state: CheckState, length: int): Answer
    requires p <= |t|
    decreases |t| - p
  {
    var k := LineEnd(t, p);
    if k == |t| || (t[k] == '\r' && k + 1 == |t|) then Answer(NeedHeader, k, p, length)
    else if t[k] == '\n' || t[k + 1] != '\n' then Answer(BadHeader, k, p, length)
    else
      match Handle(lib, t[p..k], state, length)
      case Done(code, length') => Answer(code, k + 2, k + 2, length')
      case GoOn(state', length') => ReadLines(lib, t, k + 2, state', length')
  }

  lemma {:induction false} ParseLineIs(buf: string, ci: nat)
    requires ci <= |buf| && (ci > 0 ==> buf[ci - 1] != '\r')
    ensures var k := LineEnd(buf, ci);
            ParseLine(buf, ci)
            == if k == |buf| || (buf[k] == '\r' && k + 1 == |buf|) then (LineOpen, buf, k)
               else if buf[k] == '\n' || buf[k + 1] != '\n' then (LineBad, buf, k)
               else (LineOk, CutAt(buf, k), k + 2)
    decreases |buf| - ci
  {
    hide CutAt;
    if ci < |buf| && buf[ci] != '\r' && buf[ci] != '\n' {
      ParseLineIs(buf, ci + 1);
    }
  }

  /** The buffer holds what was received, from `p` on. */
  ghost predicate Agree(buf: string, t: string, p: nat) {
    p <= |t| == |buf| && buf[p..] == t[p..]
  }

  lemma {:induction false} LineEndSame(buf: string, t: string, p: nat)
    requires Agree(buf, t, p)
    ensures LineEnd(buf, p) == LineEnd(t, p)
    decreases |t| - p
  {
    if p < |t| {
      assert buf[p] == buf[p..][0] == t[p];
      assert buf[p + 1..] == buf[p..][1..];
      assert t[p + 1..] == t[p..][1..];
      LineEndSame(buf, t, p + 1);
    }
  }

  lemma {:induction false} CStringIs(b: string, p: nat, k: nat)
    requires p <= k < |b| && b[k] == '\0'
    ensures CString(b, p) == UpToNul(b[p..k])
    decreases k - p
  {
    if p < k {
      assert b[p..k][1..] == b[p + 1..k];
      CStringIs(b, p + 1, k);
    }
  }

  lemma ValueIs(b: string, start: nat, i: nat, k: nat)
    requires start + i < k && k + 1 < |b| && b[k] == b[k + 1] == '\0'
    ensures CString(CutAt(b, start + i), start + i + 2)
            == if i + 2 <= k - start then UpToNul(b[start..k][i + 2..]) else ""
  {
    hide CString, UpToNul;
    var split := CutAt(b, start + i);
    if i + 2 <= k - start {
      CStringIs(split, start + i + 2, k);
      assert split[start + i + 2..k] == b[start..k][i + 2..];
    } else {
      CStringEnds(split, start + i + 2, k + 1);
    }
  }

  /** What the field handler makes of a line is what the bytes of the line say. */
  lemma FieldIs(lib: Library, b: string, start: nat, k: nat, length: int)
    requires start <= k && k + 1 < |b| && b[k] == b[k + 1] == '\0'
    requires start + |CString(b, start)| + 1 < |b|
    ensures var line, field := b[start..k], ParseField(lib, b, start, length);
            if UpToNul(line) == "" then field.2 && field.1 == length
            else !field.2 && field.1 == FieldLength(lib, line, length)
  {
    hide CString, UpToNul, FirstOf, OnlyBlanked, CutAt;
    CStringIs(b, start, k);
    CStringEnds(b, start, k);
    var text := CString(b, start);
    var i := FirstOf(text, ':', ':');
    if i < |text| {
      ValueIs(b, start, i, k);
    }
  }

  lemma StatusIs(lib: Library, b: string, start: nat, k: nat)
    requires start <= k < |b| && b[k] == '\0'
    ensures ParseStatus(lib, b, start).1 <==> StatusFine(lib, UpToNul(b[start..k]))
  {
    CStringIs(b, start, k);
  }

  /** Behind the line just handled the buffer still holds what was received. */
  lemma RestKept(b: string, b': string, t: string, start: nat, ci: nat)
    requires ci >= 2 && ci <= |b| == |t| && OnlyBlanked(b, b', start, ci - 2) && Agree(b, t, ci)
    ensures Agree(b', t, ci)
  {
    assert forall k :: ci <= k < |b| ==> b'[k] == b[k];
    assert b'[ci..] == b[ci..];
  }

  /** The line just found, with its end overwritten. */
  lemma LineFound(buf: string, t: string, start: nat, k: nat)
    requires start <= k && k + 1 < |t| && Agree(buf, t, start)
    ensures var b := CutAt(buf, k);
            b[start..k] == t[start..k] && Agree(b, t, k + 2) && b[k] == b[k + 1] == '\0'
  {
    assert buf[start..k] == buf[start..][..k - start] && t[start..k] == t[start..][..k - start];
    assert buf[k + 2..] == buf[start..][k + 2 - start..] && t[k + 2..] == t[start..][k + 2 - start..];
  }

  /** Handling the line in the buffer is handling the line as received, and keeps what follows it. */
  lemma LineHandled(lib: Library, m: Parser, t: string, k: nat)
    requires m.start <= k && k + 1 < |t| && Agree(m.buf, t, m.start)
    ensures var m' := m.(buf := CutAt(m.buf, k), checked := k + 2);
            && LineEnded(m')
            && var v := FinishLine(lib, m');
            && Agree(v.parser.buf, t, k + 2)
            && match Handle(lib, t[m.start..k], m.state, m.length) {
                 case Done(code, length) => v.Stop? && v.code == code && v.parser.length == length
                 case GoOn(state, length) => v.Continue? && v.parser.state == state && v.parser.length == length
               }
  {
    hide CString, UpToNul, ParseStatus, ParseField, StatusFine, FieldLength, OnlyBlanked, CutAt;
    var b := CutAt(m.buf, k);
    LineFound(m.buf, t, m.start, k);
    CStringEnds(b, m.start, k);
    StatusIs(lib, b, m.start, k);
    FieldIs(lib, b, m.start, k, m.length);
    var v := FinishLine(lib, m.(buf := b, checked := k + 2));
    RestKept(b, v.parser.buf, t, m.start, k + 2);
  }

  /** No complete line from the index on. */
  predicate NoLine(t: string, k: nat)
    requires k <= |t|
  {
    k + 1 >= |t| || t[k] != '\r' || t[k + 1] != '\n'
  }

  lemma TailsAgree(buf: string, t: string, p: nat, q: nat)
    requires Agree(buf, t, p) && p <= q <= |t|
    ensures Agree(buf, t, q) && LineEnd(buf, q) == LineEnd(t, q)
    ensures var k := LineEnd(t, q); NoLine(buf, k) == NoLine(t, k) && (k < |t| ==> buf[k] == t[k])
  {
    LineEndSame(buf, t, q) by {
      assert buf[q..] == buf[p..][q - p..] && t[q..] == t[p..][q - p..];
    }
    assert buf[q..] == buf[p..][q - p..] && t[q..] == t[p..][q - p..];
    assert forall j :: q <= j < |t| ==> buf[j] == buf[q..][j - q] && t[j] == t[q..][j - q];
  }

  lemma ParserStops(lib: Library, m: Parser, k: nat)
    requires Ok(m) && k == LineEnd(m.buf, m.checked) && NoLine(m.buf, k)
    ensures ParseContent(lib, m)
            == (if k == |m.buf| || (m.buf[k] == '\r' && k + 1 == |m.buf|) then NeedHeader else BadHeader,
                m.(checked := k))
  {
    hide ParseLine, LineEnd, FinishLine, OnlyBlanked, CutAt;
    ParseLineIs(m.buf, m.checked);
    ParseLineFacts(m.buf, m.checked);
  }

  lemma ParserGoesOn(lib: Library, m: Parser, k: nat)
    requires Ok(m) && k == LineEnd(m.buf, m.checked) && !NoLine(m.buf, k)
    requires LineEnded(m.(buf := CutAt(m.buf, k), checked := k + 2))
    ensures var v := FinishLine(lib, m.(buf := CutAt(m.buf, k), checked := k + 2));
            Ok(v.parser) && ParseContent(lib, m) == if v.Stop? then (v.code, v.parser) else ParseContent(lib, v.parser)
  {
    hide ParseLine, LineEnd, FinishLine, OnlyBlanked, CutAt;
    ParseLineIs(m.buf, m.checked);
    ParseLineFacts(m.buf, m.checked);
  }

  /** The parser, which overwrites line ends, blanks and colons and stops and resumes anywhere in a line,
      gives the answer, the index and the content length that the received bytes have. */
  lemma {:induction false} ParserReadsLines(lib: Library, m: Parser, t: string)
    requires Ok(m) && Agree(m.buf, t, m.start)
    requires LineEnd(t, m.start) == LineEnd(t, m.checked)
    ensures ReadLines(lib, t, m.start, m.state, m.length) == Report(ParseContent(lib, m))
    decreases |m.buf| - m.checked
  {
    hide ParseContent, LineEnd, FinishLine, Handle, OnlyBlanked, CutAt;
    TailsAgree(m.buf, t, m.start, m.checked);
    var k := LineEnd(t, m.start);
    if NoLine(t, k) {
      ParserStops(lib, m, k);
    } else {
      LineHandled(lib, m, t, k);
      ParserGoesOn(lib, m, k);
      var v := FinishLine(lib, m.(buf := CutAt(m.buf, k), checked := k + 2));
      if v.Continue? {
        ParserReadsLines(lib, v.parser, t);
      }
    }
  }

  /** From the start, for every cut of the input into pieces: the parser's answer is that of reading the
      lines of the whole input. */
  lemma PiecesReadLines(lib: Library, pieces: seq<string>, length: int)
    requires pieces != []
    ensures ReadLines(lib, Concat(pieces), 0, StatusLine, length)
            == Report(Feed(lib, Parser("", 0, 0, StatusLine, length), pieces))
  {
    hide ParseContent, ReadLines;
    var m0 := Parser("", 0, 0, StatusLine, length);
    assert Longer(m0, Concat(pieces)).buf == Concat(pieces);
    ChunkingDoesNotMatter(lib, m0, pieces);
    ParserReadsLines(lib, Longer(m0, Concat(pieces)), Concat(pieces));
  }

  // ---------- the branch that is never taken ----------

  /** `parse_line` without the branch for a line feed whose carriage return was consumed before. */
  function ParseLineOnce(buf: string, ci: nat): (LineStatus, string, nat)
    requires ci <= |buf|
    decreases |buf| - ci
  {
    if ci == |buf| then (LineOpen, buf, ci)
    else if buf[ci] == '\r' then
      if ci + 1 == |buf| then (LineOpen, buf, ci)
      else if buf[ci + 1] == '\n' then (LineOk, CutAt(buf, ci), ci + 2)
      else (LineBad, buf, ci)
    else if buf[ci] == '\n' then (LineBad, buf, ci)
    else ParseLineOnce(buf, ci + 1)
  }

  /** From every state a parser can reach, dropping the branch changes nothing: Ok holds at the start,
      after every call (ensured by ParseContent), and when bytes are appended. */
  lemma {:induction false} LoneLineFeedBranchUnreached(buf: string, ci: nat)
    requires ci <= |buf| && (ci > 0 ==> buf[ci - 1] != '\r')
    ensures ParseLine(buf, ci) == ParseLineOnce(buf, ci)
    decreases |buf| - ci
  {
    if ci < |buf| && buf[ci] != '\r' && buf[ci] != '\n' {
      LoneLineFeedBranchUnreached(buf, ci + 1);
    }
  }

  /** The condition is needed: from a state no run reaches, the branch accepts a line. */
  lemma LoneLineFeedBranchMatters()
    ensures ParseLine("a\r\n", 2).0 == LineOk && ParseLineOnce("a\r\n", 2).0 == LineBad
  {
  }
}
