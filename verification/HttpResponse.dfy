/** What the header parser makes of a whole response, in the terms of the response and not of any parser. */
module HttpResponse {
  import opened Common
  import opened HttpHeader

  /** Text that can stand in a line. */
  predicate Plain(s: string) {
    '\r' !in s && '\n' !in s && '\0' !in s
  }

  predicate Blanks(s: string) {
    forall j :: 0 <= j < |s| ==> Blank(s[j])
  }

  /** A status line with at least one blank behind its version. */
  predicate Splits(line: string, version: string, blanks: string, status: string) {
    && line == version + blanks + status
    && (forall j :: 0 <= j < |version| ==> !Blank(version[j]))
    && blanks != "" && Blanks(blanks) && (status != "" ==> !Blank(status[0]))
  }

  /** One header line: a field, with the byte behind the colon skipped, whatever it is, or a text without
      colon, which is passed over. */
  datatype Field = Field(name: string, skipped: char, value: string) | Other(text: string)

  predicate FieldFits(f: Field) {
    match f
    case Field(name, skipped, value) =>
      Plain(name) && ':' !in name && skipped != '\r' && skipped != '\n' && Plain(value)
    case Other(text) => text != "" && Plain(text) && ':' !in text
  }

  predicate FieldsFit(fields: seq<Field>) {
    forall i :: 0 <= i < |fields| ==> FieldFits(fields[i])
  }

  function FieldText(f: Field): string {
    match f
    case Field(name, skipped, value) => name + ":" + [skipped] + value
    case Other(text) => text
  }

  const CRLF := "\r\n"

  function FieldLines(fields: seq<Field>): string {
    if fields == [] then "" else FieldText(fields[0]) + CRLF + FieldLines(fields[1..])
  }

  predicate GivesLength(lib: Library, f: Field) {
    f.Field? && lib.isLength(f.name)
  }

  /** The length of the last field that gives one. */
  function LastLength(lib: Library, fields: seq<Field>, length: int): int {
    if fields == [] then length
    else
      var f := fields[|fields| - 1];
      if GivesLength(lib, f) then lib.toInt(f.value) else LastLength(lib, fields[..|fields| - 1], length)
  }

  /** What may follow whole lines: the blank line and the body; a line still open, perhaps in its end; or a
      line broken by a line feed or a carriage return on its own. */
  datatype Ending =
    | BlankLine(body: string)
    | Open(text: string)
    | OpenEnd(text: string)
    | LoneFeed(text: string, more: string)
    | LoneReturn(text: string, c: char, more: string)

  predicate EndingFits(e: Ending) {
    match e
    case BlankLine(_) => true
    case LoneReturn(text, c, _) => '\r' !in text && '\n' !in text && c != '\n'
    case _ => '\r' !in e.text && '\n' !in e.text
  }

  function EndingText(e: Ending): string {
    match e
    case BlankLine(body) => CRLF + body
    case Open(text) => text
    case OpenEnd(text) => text + "\r"
    case LoneFeed(text, more) => text + ("\n" + more)
    case LoneReturn(text, c, more) => text + ("\r" + [c] + more)
  }

  /** The answer for an ending that starts at `p`. */
  function EndingAnswer(e: Ending, p: nat, length: int): Answer {
    match e
    case BlankLine(_) => Answer(GetHeader, p + 2, p + 2, length)
    case Open(text) => Answer(NeedHeader, p + |text|, p, length)
    case OpenEnd(text) => Answer(NeedHeader, p + |text|, p, length)
    case LoneFeed(text, _) => Answer(BadHeader, p + |text|, p, length)
    case LoneReturn(text, _, _) => Answer(BadHeader, p + |text|, p, length)
  }

  // ---------- one line ----------

  lemma SplitsOneWay(line: string, version: string, blanks: string, status: string)
    requires Splits(line, version, blanks, status)
    ensures FirstOf(line, ' ', '\t') == |version| && SkipBlanks(line[|version| + 1..]) == status
    ensures line[..|version|] == version
  {
    assert forall j :: 0 <= j < |version| ==> line[j] == version[j];
    assert line[|version|] == blanks[0];
    assert line[|version| + 1..] == blanks[1..] + status;
    BlanksSkipped(blanks[1..], status);
  }

  lemma BlanksSkipped(blanks: string, status: string)
    requires Blanks(blanks) && (status != "" ==> !Blank(status[0]))
    ensures SkipBlanks(blanks + status) == status
  {
    var rest := blanks + status;
    var r := SkipBlanks(rest);
    hide SkipBlanks;
    SkipBlanksIs(rest);
    assert forall j :: 0 <= j < |blanks| ==> rest[j] == blanks[j];
    assert status != "" ==> rest[|blanks|] == status[0];
    assert r != "" ==> r[0] == rest[|rest| - |r|];
  }

  lemma StatusSplits(lib: Library, line: string) returns (version: string, blanks: string, status: string)
    requires StatusFine(lib, line)
    ensures Splits(line, version, blanks, status) && Accepted(lib, version, status)
  {
    hide SkipBlanks, FirstOf;
    var i := FirstOf(line, ' ', '\t');
    var rest := line[i + 1..];
    status := SkipBlanks(rest);
    SkipBlanksIs(rest);
    var k := |rest| - |status|;
    version, blanks := line[..i], [line[i]] + rest[..k];
    SplitHere(line, i, k);
    hide Splits;
  }

  lemma SplitHere(line: string, i: nat, k: nat)
    requires i < |line| && k <= |line| - i - 1
    requires (forall j :: 0 <= j < i ==> !Blank(line[j])) && Blank(line[i])
    requires var rest := line[i + 1..];
             (forall j :: 0 <= j < k ==> Blank(rest[j])) && (k < |rest| ==> !Blank(rest[k]))
    ensures var rest := line[i + 1..]; Splits(line, line[..i], [line[i]] + rest[..k], rest[k..])
  {
    var rest := line[i + 1..];
    assert line == line[..i] + ([line[i]] + rest[..k]) + rest[k..];
  }

  predicate Accepted(lib: Library, version: string, status: string) {
    lib.isVersion(version) && lib.isOk(status)
  }

  /** A status line is accepted if and only if its version and its status are. */
  lemma StatusAccepted(lib: Library, line: string)
    ensures StatusFine(lib, line)
            <==> exists version, blanks, status ::
                   Splits(line, version, blanks, status) && Accepted(lib, version, status)
  {
    hide Splits, StatusFine, Accepted;
    if StatusFine(lib, line) {
      var version, blanks, status := StatusSplits(lib, line);
      assert Splits(line, version, blanks, status) && Accepted(lib, version, status);
    }
    forall version, blanks, status | Splits(line, version, blanks, status) && Accepted(lib, version, status)
      ensures StatusFine(lib, line)
    {
      SplitsFine(lib, line, version, blanks, status);
    }
  }

  lemma SplitsFine(lib: Library, line: string, version: string, blanks: string, status: string)
    requires Splits(line, version, blanks, status) && Accepted(lib, version, status)
    ensures StatusFine(lib, line)
  {
    hide SkipBlanks, FirstOf;
    SplitsOneWay(line, version, blanks, status);
    SplitsShort(line, version, blanks, status);
    hide Splits;
  }

  lemma SplitsShort(line: string, version: string, blanks: string, status: string)
    requires Splits(line, version, blanks, status)
    ensures |version| < |line|
  {
  }

  lemma PlainUpToNul(s: string)
    requires '\0' !in s
    ensures UpToNul(s) == s
  {
  }

  lemma FieldTextParts(f: Field)
    requires f.Field?
    ensures var line, n := FieldText(f), |f.name|;
            && |line| == n + 2 + |f.value| && line[..n] == f.name && line[n] == ':' && line[n + 1] == f.skipped
            && line[n + 2..] == f.value
  {
  }

  lemma FieldRead(lib: Library, f: Field, length: int)
    requires FieldFits(f)
    ensures '\r' !in FieldText(f) && '\n' !in FieldText(f) && UpToNul(FieldText(f)) != ""
    ensures FieldLength(lib, FieldText(f), length) == if GivesLength(lib, f) then lib.toInt(f.value) else length
  {
    if f.Other? {
      OtherRead(lib, f.text, length);
      return;
    }
    var line, n := FieldText(f), |f.name|;
    FieldTextParts(f);
    PlainUpToNul(f.value);
    NameFound(line, n, f.name);
    hide FirstOf, UpToNul, FieldText;
    assert forall c :: c in line ==> c in f.name || c == ':' || c == f.skipped || c in f.value by {
      assert line == line[..n] + [line[n]] + [line[n + 1]] + line[n + 2..];
    }
  }

  lemma OtherRead(lib: Library, text: string, length: int)
    requires text != "" && '\0' !in text && ':' !in text
    ensures UpToNul(text) == text && FieldLength(lib, text, length) == length
  {
    hide FirstOf, UpToNul;
    PlainUpToNul(text);
  }

  lemma NameFound(line: string, n: nat, name: string)
    requires n < |line| && line[..n] == name && line[n] == ':' && ':' !in name && '\0' !in name
    ensures var text := UpToNul(line); FirstOf(text, ':', ':') == n < |text| && text[..n] == name
  {
    assert forall j :: 0 <= j < n ==> line[j] == name[j];
    assert forall j :: 0 <= j <= n ==> line[j] != '\0';
  }

  // ---------- the lines of a response ----------

  /** Reading one whole line, wherever it stands. */
  lemma LineRead(lib: Library, t: string, p: nat, e: nat, state: CheckState, length: int)
    requires p <= e && e + 1 < |t| && t[e] == '\r' && t[e + 1] == '\n'
    requires '\r' !in t[p..e] && '\n' !in t[p..e]
    ensures ReadLines(lib, t, p, state, length)
         == match Handle(lib, t[p..e], state, length)
            case Done(code, length') => Answer(code, e + 2, e + 2, length')
            case GoOn(state', length') => ReadLines(lib, t, e + 2, state', length')
  {
    hide Handle, LineEnd;
    LineEndIs(t, p, e);
  }

  lemma LineEndIs(t: string, p: nat, e: nat)
    requires p <= e < |t| && t[e] == '\r' && '\r' !in t[p..e] && '\n' !in t[p..e]
    ensures LineEnd(t, p) == e
  {
    hide LineEnd;
    assert forall j :: p <= j < e ==> t[j] == t[p..e][j - p];
  }

  lemma Ahead(t: string, p: nat, line: string, rest: string)
    requires p <= |t| && t[p..] == line + CRLF + rest
    ensures var e := p + |line|;
            e + 1 < |t| && t[p..e] == line && t[e] == '\r' && t[e + 1] == '\n' && t[e + 2..] == rest
  {
    var e := p + |line|;
    assert t[p..][..|line|] == line && t[p..][|line|] == '\r' && t[p..][|line| + 1] == '\n';
    assert t[p..][|line| + 2..] == rest;
    assert t[p..][|line| + 2..] == t[e + 2..];
  }

  lemma EndingRead(lib: Library, t: string, p: nat, e: Ending, state: CheckState, length: int)
    requires EndingFits(e) && p <= |t| && t[p..] == EndingText(e) && (e.BlankLine? ==> state == HeaderLine)
    ensures ReadLines(lib, t, p, state, length) == EndingAnswer(e, p, length)
  {
    if e.BlankLine? {
      hide ReadLines, LineEnd;
      assert t[p..] == "" + CRLF + e.body;
      Ahead(t, p, "", e.body);
      LineRead(lib, t, p, p, state, length);
    } else {
      hide Handle, LineEnd;
      EndingHere(t, p, e);
    }
  }

  lemma EndingHere(t: string, p: nat, e: Ending)
    requires EndingFits(e) && !e.BlankLine? && p <= |t| && t[p..] == EndingText(e)
    ensures var k := p + |e.text|;
            && k <= |t| && LineEnd(t, p) == k
            && (e.Open? <==> k == |t|) && (e.OpenEnd? <==> k + 1 == |t| && t[k] == '\r')
            && (e.LoneFeed? <==> k < |t| && t[k] == '\n')
            && (e.LoneReturn? <==> k + 1 < |t| && t[k] == '\r' && t[k + 1] != '\n')
  {
    hide LineEnd;
    var n, tail := |e.text|, t[p..];
    assert |tail| == |t| - p && forall j :: 0 <= j < |tail| ==> tail[j] == t[p + j];
    assert forall j :: 0 <= j < n ==> tail[j] == e.text[j];
    assert forall j :: p <= j < p + n ==> t[j] == tail[j - p] == e.text[j - p];
    assert forall j :: 0 <= j < n ==> e.text[j] != '\r' && e.text[j] != '\n';
    assert !e.Open? ==> n < |tail| && tail[n] == (if e.LoneFeed? then '\n' else '\r') && t[p + n] == tail[n];
    assert e.LoneReturn? ==> n + 1 < |tail| && tail[n + 1] == e.c && t[p + n + 1] == tail[n + 1];
  }

  /** All header lines that come whole. */
  lemma {:induction false} FieldsRead(
    lib: Library, t: string, p: nat, fields: seq<Field>, ending: string, length: int)
    requires FieldsFit(fields) && p <= |t| && t[p..] == FieldLines(fields) + ending
    ensures var q := p + |FieldLines(fields)|;
            && q <= |t| && t[q..] == ending
            && ReadLines(lib, t, p, HeaderLine, length)
               == ReadLines(lib, t, q, HeaderLine, LastLength(lib, fields, length))
    decreases |fields|
  {
    hide ReadLines, FieldText;
    if fields == [] {
      assert FieldLines(fields) + ending == ending;
    } else {
      var f, rest := fields[0], fields[1..];
      var line, tail := FieldText(f), FieldLines(rest) + ending;
      FieldRead(lib, f, length);
      FieldsApart(line, FieldLines(rest), ending);
      Ahead(t, p, line, tail);
      LineRead(lib, t, p, p + |line|, HeaderLine, length);
      FieldsRead(lib, t, p + |line| + 2, rest, ending, if GivesLength(lib, f) then lib.toInt(f.value) else length);
      LastOfMore(lib, fields, length);
    }
  }

  lemma FieldsApart(line: string, lines: string, ending: string)
    ensures (line + CRLF + lines) + ending == line + CRLF + (lines + ending)
  {
  }

  lemma {:induction false} LastOfMore(lib: Library, fields: seq<Field>, length: int)
    requires fields != []
    ensures LastLength(lib, fields, length)
         == LastLength(lib, fields[1..], if GivesLength(lib, fields[0]) then lib.toInt(fields[0].value) else length)
    decreases |fields|
  {
    if |fields| > 1 {
      LastOfMore(lib, fields[..|fields| - 1], length);
      assert fields[1..][..|fields| - 2] == fields[..|fields| - 1][1..];
      assert fields[1..][|fields| - 2] == fields[|fields| - 1] && fields[..|fields| - 1][0] == fields[0];
    }
  }

  /** Every input that has a status line, delivered in any pieces. If the status line is accepted, the header
      lines are passed, the last length is kept and the ending decides: complete at the blank line, more
      wanted at an open line, bad at a broken one. Otherwise the answer is bad behind the status line. */
  lemma ResponseRead(
    lib: Library, pieces: seq<string>, line: string, fields: seq<Field>, e: Ending, length: int)
    requires pieces != [] && Concat(pieces) == line + CRLF + (FieldLines(fields) + EndingText(e))
    requires Plain(line) && FieldsFit(fields) && EndingFits(e)
    ensures Report(Feed(lib, Parser("", 0, 0, StatusLine, length), pieces))
         == if exists version, blanks, status ::
                 Splits(line, version, blanks, status) && Accepted(lib, version, status)
            then EndingAnswer(e, |line| + 2 + |FieldLines(fields)|, LastLength(lib, fields, length))
            else Answer(BadHeader, |line| + 2, |line| + 2, length)
  {
    hide ReadLines, Feed, FieldLines, EndingText, EndingAnswer, Splits, StatusFine, EndingFits;
    PiecesReadLines(lib, pieces, length);
    var t := Concat(pieces);
    var rest := FieldLines(fields) + EndingText(e);
    assert t[0..] == line + CRLF + rest;
    Ahead(t, 0, line, rest);
    LineRead(lib, t, 0, |line|, StatusLine, length);
    PlainUpToNul(line);
    StatusAccepted(lib, line);
    FieldsRead(lib, t, |line| + 2, fields, EndingText(e), length);
    EndingRead(lib, t, |line| + 2 + |FieldLines(fields)|, e, HeaderLine, LastLength(lib, fields, length));
  }

  /** And an input that has none: more is wanted, or it is bad. */
  lemma NoStatusLine(lib: Library, pieces: seq<string>, e: Ending, length: int)
    requires pieces != [] && Concat(pieces) == EndingText(e) && EndingFits(e) && !e.BlankLine?
    ensures Report(Feed(lib, Parser("", 0, 0, StatusLine, length), pieces)) == EndingAnswer(e, 0, length)
  {
    hide ReadLines, Feed, EndingText, EndingAnswer;
    PiecesReadLines(lib, pieces, length);
    var t := Concat(pieces);
    assert t[0..] == t;
    EndingRead(lib, t, 0, e, StatusLine, length);
  }
}
