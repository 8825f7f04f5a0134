/**
 * The request parser of src/http.c.
 *
 * `Request.ParseQueryHeaders` walks a position over the input buffer, which is reused from one
 * request to the next and never cleared. `Parse` is the function it computes. The lemmas compare
 * it with a parser that splits the head of a request at its line breaks.
 */
module Http {
  import opened CStrings
  import Decimal

  const UNKNOWN := 0
  const GET := 1
  const POST := 2
  const HEAD := 3
  const PUT := 4
  const DELETE := 5
  const OPTIONS := 6

  const MAX_HEADERS: nat := 64
  const MAX_HEADER_NAME: nat := 128
  const MAX_HEADER_VALUE: nat := 4096
  const MAX_PATH: nat := 2048

  datatype Header = Header(name: string, value: string)

  datatype Parsed = Parsed(
    verb: int, path: string, query: string, headers: seq<Header>, bodyOffset: nat, major: int, minor: int)

  const RESET: Parsed := Parsed(UNKNOWN, "", "", [], 0, 0, 0)

  /** What fits into a fixed array of `size` characters with its terminator. */
  function Fit(s: string, size: nat): string
    requires size > 0
  {
    if |s| >= size then s[..size - 1] else s
  }

  function Verb(s: string): int {
    if s == "GET" then GET
    else if s == "POST" then POST
    else if s == "HEAD" then HEAD
    else if s == "PUT" then PUT
    else if s == "DELETE" then DELETE
    else if s == "OPTIONS" then OPTIONS
    else UNKNOWN
  }

  function TrimSpaces(s: string): string {
    if s != "" && s[0] == ' ' then TrimSpaces(s[1..]) else s
  }

  /** `c - '0'` on a signed `char`. */
  function DigitOf(c: char): int {
    (if c as int < 128 then c as int else c as int - 256) - '0' as int
  }

  /** The version a request line ends with; anything else than HTTP/ leaves it at zero. */
  function Version(s: string): (int, int) {
    if |s| >= 8 && s[..5] == "HTTP/" then (DigitOf(s[5]), if s[6] == '.' then DigitOf(s[7]) else 0)
    else (0, 0)
  }

  /** The fields a request line sets, and whether it is complete. */
  function ParseRequestLine(line: string): (r: (bool, Parsed))
    ensures r.1.headers == [] && r.1.bodyOffset == 0
    ensures !r.0 ==> r.1.major == 0 == r.1.minor
  {
    match Split(line, " ")
    case Uncut => (false, RESET)
    case Cut(verb, afterVerb) =>
      var r := RESET.(verb := Verb(verb));
      match Split(afterVerb, " ")
      case Uncut => (false, r)
      case Cut(uri, version) =>
        var v := Version(version);
        var r := r.(major := v.0, minor := v.1);
        match Split(uri, "?")
        case Uncut => (true, r.(path := Fit(uri, MAX_PATH)))
        case Cut(path, query) => (true, r.(path := Fit(path, MAX_PATH), query := Fit(query, MAX_PATH)))
  }

  /** The header a line holds, if it has a colon. */
  function ParseHeader(line: string): Option<Header> {
    match Split(line, ":")
    case Uncut => None
    case Cut(name, value) => Some(Header(Fit(name, MAX_HEADER_NAME), Fit(TrimSpaces(value), MAX_HEADER_VALUE)))
  }

  /** The loop over the header lines at `pos`, with `hs` stored already: headers and body offset. */
  function Walk(mem: string, n: nat, pos: nat, hs: seq<Header>): (r: (seq<Header>, nat))
    requires n <= |mem|
    ensures r.1 <= n
    decreases |mem| - pos
  {
    if pos >= n || |hs| >= MAX_HEADERS then
      (hs, 0)
    else if mem[pos] == '\r' && pos + 1 < n && mem[pos + 1] == '\n' then
      (hs, pos + 2)
    else
      match StrStrAt(mem, pos, CRLF)
      case None => (hs, 0)
      case Some(e) =>
        match ParseHeader(mem[pos..e])
        case None => Walk(mem, n, e + 2, hs)
        case Some(h) => Walk(mem, n, e + 2, hs + [h])
  }

  /** The parser: whether it accepts, and all it stores. Of the block `mem`, `n` bytes were just read. */
  function Parse(mem: string, n: nat): (r: (bool, Parsed))
    requires n <= |mem|
    ensures r.1.bodyOffset <= n
  {
    if n == 0 then
      (false, RESET)
    else
      match StrStrAt(mem, 0, CRLF)
      case None => (false, RESET)
      case Some(e) =>
        var (ok, r) := ParseRequestLine(mem[..e]);
        if !ok then (false, r)
        else
          var (hs, offset) := Walk(mem, n, e + 2, []);
          (true, r.(headers := hs, bodyOffset := offset))
  }

  // ---------- splitting the head of a request at its line breaks ----------

  const BLANK: string := "\r\n\r\n"

  function ShowLines(lines: seq<string>): string {
    if lines == [] then "" else lines[0] + CRLF + ShowLines(lines[1..])
  }

  ghost predicate IsLine(line: string) {
    !Contains(line, CRLF)
  }

  /** The lines of a head, without the request line and the empty line that ends it. */
  ghost predicate AreHeaderLines(lines: seq<string>) {
    forall line | line in lines :: line != "" && IsLine(line)
  }

  function ShowHead(requestLine: string, lines: seq<string>): string {
    requestLine + CRLF + ShowLines(lines) + CRLF
  }

  /** The block starts with a complete head made of these lines, within the `n` bytes just read. */
  ghost predicate HoldsHead(mem: string, n: nat, requestLine: string, lines: seq<string>) {
    && IsLine(requestLine) && AreHeaderLines(lines)
    && var head := ShowHead(requestLine, lines);
    && NulFree(head) && |head| <= n <= |mem| && head <= mem
  }

  function HeadersOf(lines: seq<string>): seq<Header> {
    if lines == [] then []
    else
      match ParseHeader(lines[0])
      case None => HeadersOf(lines[1..])
      case Some(h) => [h] + HeadersOf(lines[1..])
  }

  /** The reference: the headers are those of the lines, up to the capacity of the table. */
  function ParseLines(requestLine: string, lines: seq<string>): (bool, Parsed) {
    var (ok, r) := ParseRequestLine(requestLine);
    if !ok then (false, r)
    else
      var hs := HeadersOf(lines);
      if |hs| < 64 then (true, r.(headers := hs, bodyOffset := |ShowHead(requestLine, lines)|))
      else (true, r.(headers := hs[..64]))
  }

  lemma LineEnds(mem: string, pos: nat, line: string, t: string)
    requires pos <= |mem| && line + CRLF + t <= mem[pos..] && NulFree(line) && IsLine(line)
    ensures pos + |line| + 2 + |t| <= |mem| && StrStrAt(mem, pos, CRLF) == Some(pos + |line|)
    ensures mem[pos..pos + |line|] == line
    ensures t <= mem[pos + |line| + 2..]
  {
    var m, w := mem[pos..], line + CRLF;
    assert m[..|w|] == w && m[|w|..] == mem[pos + |w|..];
    BorderFreeAppend(line, CRLF);
    StrStrMeets(mem, pos, line, CRLF);
    assert m[|w|..][..|t|] == t;
    assert mem[pos..pos + |line|] == m[..|line|] == w[..|line|];
  }

  /** The walk over one line. */
  lemma WalkLine(mem: string, n: nat, pos: nat, line: string, t: string, hs: seq<Header>)
    requires n <= |mem| && line != "" && IsLine(line) && |hs| < MAX_HEADERS
    requires NulFree(line) && pos + |line| + 2 <= n && line + CRLF + t <= mem[pos..]
    ensures t <= mem[pos + |line| + 2..]
    ensures Walk(mem, n, pos, hs) ==
      match ParseHeader(line)
      case None => Walk(mem, n, pos + |line| + 2, hs)
      case Some(h) => Walk(mem, n, pos + |line| + 2, hs + [h])
  {
    hide StrStrAt, Contains, ParseHeader, OccursAt;
    LineEnds(mem, pos, line, t);
    NotBlank(mem, pos, line);
  }

  /** The header lines, and the empty line after them, are what the walk has before it. */
  ghost predicate Before(mem: string, n: nat, pos: nat, lines: seq<string>) {
    && n <= |mem| && AreHeaderLines(lines)
    && var t := ShowLines(lines) + CRLF;
    && NulFree(t) && pos + |t| <= n && t <= mem[pos..]
  }

  lemma ShownFirst(lines: seq<string>)
    requires lines != []
    ensures ShowLines(lines) + CRLF == lines[0] + CRLF + (ShowLines(lines[1..]) + CRLF)
  {}

  lemma FirstIsLine(lines: seq<string>)
    requires lines != [] && AreHeaderLines(lines)
    ensures lines[0] != "" && IsLine(lines[0]) && AreHeaderLines(lines[1..])
  {
    hide IsLine;
    assert lines[0] in lines && forall line | line in lines[1..] :: line in lines;
  }

  lemma WalkFirst(mem: string, n: nat, pos: nat, lines: seq<string>, hs: seq<Header>)
    requires lines != [] && Before(mem, n, pos, lines) && |hs| < MAX_HEADERS
    ensures var end := pos + |lines[0]| + 2;
      && Before(mem, n, end, lines[1..])
      && Walk(mem, n, pos, hs) ==
         match ParseHeader(lines[0])
         case None => Walk(mem, n, end, hs)
         case Some(h) => Walk(mem, n, end, hs + [h])
  {
    hide StrStrAt, IsLine, ParseHeader, Walk, ShowLines, AreHeaderLines;
    var line, t := lines[0], ShowLines(lines[1..]) + CRLF;
    ShownFirst(lines);
    FirstIsLine(lines);
    WalkLine(mem, n, pos, line, t, hs);
  }

  lemma WalkLast(mem: string, n: nat, pos: nat, hs: seq<Header>)
    requires Before(mem, n, pos, []) && |hs| < MAX_HEADERS
    ensures Walk(mem, n, pos, hs) == (hs, pos + 2)
  {
    assert mem[pos..][0] == '\r' && mem[pos..][1] == '\n';
  }

  lemma {:induction false} WalkIsSplit(mem: string, n: nat, pos: nat, lines: seq<string>, hs: seq<Header>)
    requires Before(mem, n, pos, lines) && |hs| <= MAX_HEADERS
    ensures var all := hs + HeadersOf(lines);
      Walk(mem, n, pos, hs) ==
      if |all| < MAX_HEADERS then (all, pos + |ShowLines(lines)| + 2) else (all[..MAX_HEADERS], 0)
    decreases |lines|
  {
    hide Before, ParseHeader, StrStrAt;
    assert n <= |mem| by { WithinBlock(mem, n, pos, lines); }
    var all := hs + HeadersOf(lines);
    if |hs| == MAX_HEADERS {
      assert all[..MAX_HEADERS] == hs;
    } else if lines == [] {
      WalkLast(mem, n, pos, hs);
      assert all == hs;
    } else {
      WalkFirst(mem, n, pos, lines, hs);
      var end := pos + |lines[0]| + 2;
      match ParseHeader(lines[0])
      case None => WalkIsSplit(mem, n, end, lines[1..], hs);
      case Some(h) =>
        WalkIsSplit(mem, n, end, lines[1..], hs + [h]);
        assert hs + [h] + HeadersOf(lines[1..]) == all;
    }
  }

  lemma WithinBlock(mem: string, n: nat, pos: nat, lines: seq<string>)
    requires Before(mem, n, pos, lines)
    ensures n <= |mem|
  {}

  /** A non-empty line does not start with a line break. */
  lemma NotBlank(mem: string, pos: nat, line: string)
    requires line != "" && IsLine(line) && pos + |line| + 2 <= |mem|
    requires mem[pos..pos + |line|] == line && mem[pos + |line|..pos + |line| + 2] == CRLF
    ensures !(mem[pos] == '\r' && mem[pos + 1] == '\n')
  {
    var s := mem[pos..pos + |line|];
    assert mem[pos] == s[0];
    if |line| == 1 {
      assert mem[pos + 1] == mem[pos + |line|..pos + |line| + 2][0];
    } else {
      assert mem[pos + 1] == s[1] && !OccursAt(line, CRLF, 0);
    }
  }

  /** The pointer walk computes what splitting the head at its line breaks gives. */
  lemma ParseIsSplit(mem: string, n: nat, requestLine: string, lines: seq<string>)
    requires HoldsHead(mem, n, requestLine, lines)
    ensures Parse(mem, n) == ParseLines(requestLine, lines)
  {
    hide StrStrAt, Contains, ParseRequestLine, Walk, HeadersOf, AreHeaderLines;
    var t := ShowLines(lines) + CRLF;
    assert ShowHead(requestLine, lines) == requestLine + CRLF + t && mem[0..] == mem;
    LineEnds(mem, 0, requestLine, t);
    WalkIsSplit(mem, n, |requestLine| + 2, lines, []);
    assert [] + HeadersOf(lines) == HeadersOf(lines);
    assert mem[0..|requestLine|] == mem[..|requestLine|] == requestLine;
    assert StrStrAt(mem, 0, CRLF) == Some(|requestLine|);
    assert |ShowHead(requestLine, lines)| == |requestLine| + 2 + |ShowLines(lines)| + 2;
  }

  /** A head that breaks off: the lines that are complete are walked, and no body is found. */
  lemma {:induction false} WalkIncomplete(
    mem: string, n: nat, pos: nat, lines: seq<string>, last: string, hs: seq<Header>)
    requires n <= |mem| && pos <= |mem| && CStr(mem[pos..]) == ShowLines(lines) + last
    requires AreHeaderLines(lines) && IsLine(last) && pos + |ShowLines(lines)| <= n && |hs| <= 64
    ensures var all := hs + HeadersOf(lines); Walk(mem, n, pos, hs) == (if |all| <= 64 then all else all[..64], 0)
    decreases |lines|
  {
    hide Walk, StrStrAt, IsLine, ParseHeader, ShowLines, AreHeaderLines, CStr;
    var all := hs + HeadersOf(lines);
    if |hs| == 64 {
      assert all[..64] == hs && (|all| == 64 ==> all[..64] == all);
      WalkEnds(mem, n, pos, hs);
    } else if lines == [] {
      NothingShown(last);
      LastSearched(mem, pos, last);
      assert all == hs;
      WalkEnds(mem, n, pos, hs);
    } else {
      var line, t := lines[0], ShowLines(lines[1..]) + last;
      FirstIsLine(lines);
      ShownPart(mem, pos, lines, last);
      WalkLine(mem, n, pos, line, t, hs);
      var end := pos + |line| + 2;
      match ParseHeader(line)
      case None => WalkIncomplete(mem, n, end, lines[1..], last, hs);
      case Some(h) =>
        WalkIncomplete(mem, n, end, lines[1..], last, hs + [h]);
        assert hs + [h] + HeadersOf(lines[1..]) == all;
    }
  }

  lemma WalkEnds(mem: string, n: nat, pos: nat, hs: seq<Header>)
    requires n <= |mem| && pos <= |mem|
    requires |hs| == 64 || (StrStrAt(mem, pos, CRLF) == None
                            && (pos + 1 < |mem| ==> !(mem[pos] == '\r' && mem[pos + 1] == '\n')))
    ensures Walk(mem, n, pos, hs) == (hs, 0)
  {}

  lemma NothingShown(last: string)
    ensures ShowLines([]) + last == last && |ShowLines([])| == 0
  {}

  lemma LastSearched(mem: string, pos: nat, last: string)
    requires pos <= |mem| && CStr(mem[pos..]) == last && IsLine(last)
    ensures StrStrAt(mem, pos, CRLF) == None
    ensures pos + 1 < |mem| ==> !(mem[pos] == '\r' && mem[pos + 1] == '\n')
  {
    if pos + 1 < |mem| {
      BreakIs(mem, pos);
      OccursInMemory(mem, pos, CRLF, 0);
    }
  }

  lemma ShownThen(lines: seq<string>, last: string)
    requires lines != []
    ensures ShowLines(lines) + last == lines[0] + CRLF + (ShowLines(lines[1..]) + last)
    ensures |ShowLines(lines)| == |lines[0]| + 2 + |ShowLines(lines[1..])|
  {}

  lemma NulFreeStart(a: string, b: string)
    ensures NulFree(a + b) ==> NulFree(a)
  {}

  lemma CStrStarts(mem: string)
    ensures CStr(mem) <= mem
  {}

  lemma ShownPart(mem: string, pos: nat, lines: seq<string>, last: string)
    requires lines != [] && pos <= |mem| && CStr(mem[pos..]) == ShowLines(lines) + last
    ensures var line, t, end := lines[0], ShowLines(lines[1..]) + last, pos + |lines[0]| + 2;
      && NulFree(line) && line + CRLF + t <= mem[pos..] && end <= |mem| && CStr(mem[end..]) == t
      && |ShowLines(lines)| == |line| + 2 + |ShowLines(lines[1..])|
  {
    hide CStr, ShowLines;
    var line, t := lines[0], ShowLines(lines[1..]) + last;
    ShownThen(lines, last);
    CStrIsNulFree(mem[pos..]);
    NulFreeStart(line, CRLF + t);
    assert line + (CRLF + t) == line + CRLF + t;
    CStrStarts(mem[pos..]);
    CStrAt(mem[pos..], |line| + 2);
    assert mem[pos..][|line| + 2..] == mem[pos + |line| + 2..];
    assert (line + CRLF + t)[|line| + 2..] == t;
  }

  /** So a read that breaks off in its head gives the headers of its complete lines, and no body. */
  lemma ParseIncomplete(mem: string, n: nat, requestLine: string, lines: seq<string>, last: string)
    requires 0 < n <= |mem| && CStr(mem) == requestLine + CRLF + ShowLines(lines) + last
    requires IsLine(requestLine) && AreHeaderLines(lines) && IsLine(last) && |requestLine| + 2 + |ShowLines(lines)| <= n
    ensures var (ok, r) := ParseRequestLine(requestLine);
      var hs := HeadersOf(lines);
      Parse(mem, n) == (ok, if ok then r.(headers := if |hs| <= 64 then hs else hs[..64]) else r)
  {
    hide StrStrAt, IsLine, ParseRequestLine, ShowLines, AreHeaderLines, CStr, Walk, HeadersOf;
    var all := [requestLine] + lines;
    ShownMore(requestLine, lines);
    assert all[1..] == lines && all[0] == requestLine && mem[0..] == mem;
    ShownPart(mem, 0, all, last);
    LineEnds(mem, 0, requestLine, ShowLines(lines) + last);
    assert mem[0..|requestLine|] == mem[..|requestLine|];
    WalkIncomplete(mem, n, |requestLine| + 2, lines, last, []);
    assert [] + HeadersOf(lines) == HeadersOf(lines);
  }

  /** Nothing read, or no line break before the first zero byte: rejected, with every field reset. */
  lemma ParseNothing(mem: string, n: nat)
    requires n <= |mem| && (n == 0 || IsLine(CStr(mem)))
    ensures Parse(mem, n) == (false, Parsed(0, "", "", [], 0, 0, 0))
  {
    assert mem[0..] == mem;
  }

  /** The header lines of a block that ends with the first empty line. */
  lemma {:induction false} BlockLines(t: string) returns (lines: seq<string>)
    requires |t| >= 2 && FirstAt(CRLF + t, BLANK, |t| - 2)
    ensures AreHeaderLines(lines) && t == ShowLines(lines) + CRLF
    decreases |t|
  {
    hide Contains, FirstAt;
    EndsBlank(t);
    if |t| == 2 {
      lines := [];
    } else {
      var line, t' := FirstLine(t);
      var rest := BlockLines(t');
      lines := [line] + rest;
      assert ShowLines(lines) == line + CRLF + ShowLines(rest);
    }
  }

  lemma EndsBlank(t: string)
    requires |t| >= 2 && FirstAt(CRLF + t, BLANK, |t| - 2)
    ensures t[|t| - 2..] == CRLF
  {
    var s := CRLF + t;
    assert s[|t| - 2..|t| + 2] == BLANK;
    assert t[|t| - 2] == s[|t|] == s[|t| - 2..|t| + 2][2] && t[|t| - 1] == s[|t| + 1] == s[|t| - 2..|t| + 2][3];
  }

  lemma FirstBreak(t: string) returns (line: string, t': string)
    requires |t| >= 2 && t[|t| - 2..] == CRLF
    ensures t == line + CRLF + t' && IsLine(line)
  {
    assert OccursAt(t, CRLF, |t| - 2);
    SplitIsCut(t, CRLF);
    var c := Split(t, CRLF);
    line, t' := c.before, c.after;
    BorderFreeAppend(line, CRLF);
  }

  lemma FirstLine(t: string) returns (line: string, t': string)
    requires |t| > 2 && FirstAt(CRLF + t, BLANK, |t| - 2)
    ensures t == line + CRLF + t' && line != "" && IsLine(line)
    ensures 2 <= |t'| < |t| && FirstAt(CRLF + t', BLANK, |t'| - 2)
  {
    hide FirstAt, IsLine;
    EndsBlank(t);
    line, t' := FirstBreak(t);
    LineIsNotEmpty(t, line, t');
    RestIsBlock(t, line, t');
    var k := |line| + 2;
    assert (CRLF + t)[k..] == CRLF + t';
    FirstAtSuffix(CRLF + t, BLANK, |t| - 2, k);
  }

  lemma LineIsNotEmpty(t: string, line: string, t': string)
    requires |t| > 2 && FirstAt(CRLF + t, BLANK, |t| - 2) && t == line + CRLF + t'
    ensures line != ""
  {
    assert !OccursAt(CRLF + t, BLANK, 0) && (CRLF + t)[0..4] == CRLF + t[..2];
    assert t[..2] != CRLF;
  }

  lemma RestIsBlock(t: string, line: string, t': string)
    requires |t| > 2 && FirstAt(CRLF + t, BLANK, |t| - 2)
    requires t == line + CRLF + t' && line != "" && IsLine(line)
    ensures |t'| >= 2
  {
    var s, n, m := CRLF + t, |line|, |t| - 2;
    var end := s[m..m + 4];
    assert s[m] == end[0] == '\r' && s[m + 1] == end[1] == '\n' && s[m + 2] == end[2] == '\r';
    assert s[n] == if n == 1 then '\n' else line[n - 2];
    assert s[n + 1] == line[n - 1] && s[n + 2] == '\r' && s[n + 3] == '\n';
    assert n >= 2 ==> !OccursAt(line, CRLF, n - 2);
    assert n >= 2 ==> line[n - 2..n] == [line[n - 2], line[n - 1]];
  }

  /**
   * Any block whose first empty line lies within the bytes just read, with no zero byte before it,
   * holds a head; and the head ends with that empty line.
   */
  lemma CompleteHead(mem: string, n: nat, e: nat) returns (requestLine: string, lines: seq<string>)
    requires n <= |mem| && FirstAt(mem[..n], BLANK, e) && NulFree(mem[..e + 4])
    ensures HoldsHead(mem, n, requestLine, lines) && |ShowHead(requestLine, lines)| == e + 4
  {
    hide Contains, NoneBefore, AreHeaderLines;
    var h := mem[..n][..e + 4];
    FirstAtPrefix(mem[..n], BLANK, e, e + 4);
    var t;
    requestLine, t := RequestLineOf(h, e);
    lines := BlockLines(t);
    assert h == ShowHead(requestLine, lines) && h == mem[..e + 4];
  }

  lemma BreakUpTo(h: string, e: nat) returns (line: string, t: string)
    requires OccursAt(h, CRLF, e)
    ensures h == line + CRLF + t && IsLine(line) && |line| <= e
  {
    SplitIsCut(h, CRLF);
    var c := Split(h, CRLF);
    line, t := c.before, c.after;
    BorderFreeAppend(line, CRLF);
    FirstAtExtends(line + CRLF, CRLF, |line|, t);
  }

  lemma RequestLineOf(h: string, e: nat) returns (requestLine: string, t: string)
    requires |h| == e + 4 && FirstAt(h, BLANK, e) && OccursAt(h, BLANK, e)
    ensures h == requestLine + CRLF + t && IsLine(requestLine)
    ensures |t| >= 2 && FirstAt(CRLF + t, BLANK, |t| - 2)
  {
    hide FirstAt, IsLine;
    BlankStarts(h, e);
    requestLine, t := BreakUpTo(h, e);
    assert h[|requestLine|..] == CRLF + t;
    FirstAtSuffix(h, BLANK, e, |requestLine|);
  }

  /** Bytes that earlier requests left beyond those just read do not matter to a complete head. */
  lemma LeftoversDoNotMatter(mem: string, mem': string, n: nat, e: nat)
    requires n <= |mem| && n <= |mem'| && mem[..n] == mem'[..n]
    requires FirstAt(mem[..n], BLANK, e) && NulFree(mem[..e + 4])
    ensures Parse(mem, n) == Parse(mem', n)
    ensures Parse(mem, n).1.bodyOffset in {0, e + 4}
  {
    hide NoneBefore, Parse, AreHeaderLines;
    var requestLine, lines := CompleteHead(mem, n, e);
    var head := ShowHead(requestLine, lines);
    assert head == mem[..n][..|head|] == mem'[..|head|];
    ParseIsSplit(mem, n, requestLine, lines);
    ParseIsSplit(mem', n, requestLine, lines);
  }

  // ---------- reading the stored request ----------

  function LowerChar(c: char): char {
    if 'A' <= c <= 'Z' then (c as int + 32) as char else c
  }

  /** `strcasecmp(a, b) == 0` */
  predicate SameName(a: string, b: string) {
    |a| == |b| && forall k | 0 <= k < |a| :: LowerChar(a[k]) == LowerChar(b[k])
  }

  /** The value of the first header of that name. */
  function HeaderValue(hs: seq<Header>, name: string): Option<string> {
    if hs == [] then None
    else if SameName(hs[0].name, name) then Some(hs[0].value)
    else HeaderValue(hs[1..], name)
  }

  lemma {:induction false} HeaderValueSkips(hs: seq<Header>, k: nat, name: string)
    requires k <= |hs| && forall j | 0 <= j < k :: !SameName(hs[j].name, name)
    ensures HeaderValue(hs, name) == HeaderValue(hs[k..], name)
  {
    if k > 0 {
      HeaderValueSkips(hs[1..], k - 1, name);
      assert hs[1..][k - 1..] == hs[k..];
    } else {
      assert hs[0..] == hs;
    }
  }

  /** The value of the first header of a name, if there is one. */
  lemma {:induction false} HeaderValueIsFirst(hs: seq<Header>, name: string)
    ensures match HeaderValue(hs, name)
      case None => forall k | 0 <= k < |hs| :: !SameName(hs[k].name, name)
      case Some(v) => exists k :: 0 <= k < |hs| && SameName(hs[k].name, name) && hs[k].value == v
                               && forall j | 0 <= j < k :: !SameName(hs[j].name, name)
  {
    hide SameName;
    if hs != [] && !SameName(hs[0].name, name) {
      var rest := hs[1..];
      HeaderValueIsFirst(rest, name);
      assert forall k | 0 < k < |hs| :: hs[k] == rest[k - 1];
      if HeaderValue(rest, name).Some? {
        var k :| 0 <= k < |rest| && SameName(rest[k].name, name) && rest[k].value == HeaderValue(rest, name).value
                 && forall j | 0 <= j < k :: !SameName(rest[j].name, name);
        assert hs[k + 1] == rest[k];
      }
    }
  }

  const CONTENT_LENGTH: string := "Content-Length"

  function ContentLength(hs: seq<Header>): int {
    match HeaderValue(hs, CONTENT_LENGTH)
    case None => 0
    case Some(v) => Decimal.Strtol(v)
  }

  /** The body: as many bytes as announced, but no more than were read. */
  function Content(mem: string, n: nat, r: Parsed, length: int): Option<string>
    requires r.bodyOffset <= n <= |mem|
  {
    var len := if length == 0 then ContentLength(r.headers) else length;
    if len <= 0 then None
    else if len > n - r.bodyOffset then Some(mem[r.bodyOffset..n])
    else Some(mem[r.bodyOffset..r.bodyOffset + len])
  }

  // ---------- the round trip ----------

  datatype Message = Message(
    verb: string, path: string, query: Option<string>, major: nat, minor: nat, headers: seq<Header>, body: string)

  function ShowRequestLine(m: Message): string
    requires m.major < 10 && m.minor < 10
  {
    m.verb + " " + (m.path + (if m.query.Some? then "?" + m.query.value else ""))
    + " " + ("HTTP/" + [Decimal.DigitChar(m.major), '.', Decimal.DigitChar(m.minor)])
  }

  function ShowHeader(h: Header): string {
    h.name + ":" + (" " + h.value)
  }

  function ShowHeaders(hs: seq<Header>): seq<string> {
    seq(|hs|, i requires 0 <= i < |hs| => ShowHeader(hs[i]))
  }

  function ShowMessage(m: Message): string
    requires m.major < 10 && m.minor < 10
  {
    ShowHead(ShowRequestLine(m), ShowHeaders(m.headers)) + m.body
  }

  ghost predicate HeaderOk(h: Header) {
    && ':' !in h.name && |h.name| < 128
    && |h.value| < 4096 && (h.value != "" ==> h.value[0] != ' ')
    && IsLine(ShowHeader(h)) && NulFree(h.name) && NulFree(h.value)
  }

  /** A request within the limits of the parser. The body may hold any bytes. */
  ghost predicate MessageOk(m: Message) {
    && m.major < 10 && m.minor < 10
    && ' ' !in m.verb && ' ' !in m.path && '?' !in m.path && |m.path| < 2048
    && (m.query.Some? ==> ' ' !in m.query.value && |m.query.value| < 2048 && NulFree(m.query.value))
    && NulFree(m.verb) && NulFree(m.path) && IsLine(ShowRequestLine(m))
    && |m.headers| < 64 && forall h | h in m.headers :: HeaderOk(h)
  }

  /** The first header named Content-Length announces the length of the body. */
  ghost predicate Announces(hs: seq<Header>, k: nat, length: nat) {
    && k < |hs| && SameName(hs[k].name, "Content-Length") && hs[k].value == Decimal.Show(length)
    && forall j | 0 <= j < k :: !SameName(hs[j].name, "Content-Length")
  }

  lemma SplitChar(a: string, c: char, z: string)
    requires c !in a
    ensures Split(a + [c] + z, [c]) == Cut(a, z) && Split(a, [c]) == Uncut
  {
    forall j: nat ensures !OccursAt(a, [c], j) {
      OneChar(a, c, j);
    }
    BorderFreeAppend(a, [c]);
    CutIsSplit(a + [c] + z, [c], Cut(a, z));
    CutIsSplit(a, [c], Uncut);
  }

  // The methods, and their numbers in src/warudo.h.

  datatype Method = Get | Post | Head | Put | Delete | Options

  function Spelling(x: Method): string {
    match x
    case Get => "GET"
    case Post => "POST"
    case Head => "HEAD"
    case Put => "PUT"
    case Delete => "DELETE"
    case Options => "OPTIONS"
  }

  function Number(x: Method): int {
    match x
    case Get => 1
    case Post => 2
    case Head => 3
    case Put => 4
    case Delete => 5
    case Options => 6
  }

  /** The number a word is stored as: that of the method it spells, or zero. */
  ghost predicate StoredAs(word: string, verb: int) {
    && (forall x: Method | word == Spelling(x) :: verb == Number(x))
    && ((forall x: Method :: word != Spelling(x)) ==> verb == 0)
  }

  lemma VerbIs(word: string)
    ensures StoredAs(word, Verb(word))
  {
    if word !in ["GET", "POST", "HEAD", "PUT", "DELETE", "OPTIONS"] {
      assert Verb(word) == 0;
    } else {
      assert word == Spelling(Get) || word == Spelling(Post) || word == Spelling(Head)
        || word == Spelling(Put) || word == Spelling(Delete) || word == Spelling(Options);
    }
  }

  /** At most the first `n` characters. */
  function First(s: string, n: nat): string {
    if |s| <= n then s else s[..n]
  }

  /** A request target: a path, and a query after the first question mark. */
  function ShowTarget(path: string, query: Option<string>): string {
    path + if query.Some? then "?" + query.value else ""
  }

  /** A line of three words: what is stored of each. */
  lemma RequestLineIs(verb: string, path: string, query: Option<string>, version: string)
    requires ' ' !in verb && ' ' !in path && '?' !in path && ' ' !in query.GetOr("")
    ensures var (ok, r) := ParseRequestLine(verb + " " + ShowTarget(path, query) + " " + version);
      && ok && StoredAs(verb, r.verb)
      && r.path == First(path, 2047) && r.query == First(query.GetOr(""), 2047)
      && (r.major, r.minor) == Version(version) && r.headers == [] && r.bodyOffset == 0
  {
    hide Split, Verb, Version, StoredAs;
    var target := ShowTarget(path, query);
    VerbIs(verb);
    assert verb + " " + target + " " + version == verb + [' '] + (target + [' '] + version);
    SplitChar(verb, ' ', target + [' '] + version);
    SplitChar(target, ' ', version);
    if query.Some? {
      assert target == path + ['?'] + query.value;
      SplitChar(path, '?', query.value);
    } else {
      assert target == path;
      SplitChar(path, '?', "");
    }
  }

  /** A line of one or two words is rejected: version and headers stay reset. */
  lemma RequestLineRejected(verb: string, rest: Option<string>)
    requires ' ' !in verb && ' ' !in rest.GetOr("")
    ensures var (ok, r) := ParseRequestLine(verb + if rest.Some? then " " + rest.value else "");
      && !ok && r == Parsed(r.verb, "", "", [], 0, 0, 0)
      && if rest.Some? then StoredAs(verb, r.verb) else r.verb == 0
  {
    hide Split, Verb, StoredAs;
    VerbIs(verb);
    if rest.Some? {
      assert verb + (" " + rest.value) == verb + [' '] + rest.value;
      SplitChar(verb, ' ', rest.value);
      SplitChar(rest.value, ' ', "");
    } else {
      assert verb + "" == verb;
      SplitChar(verb, ' ', "");
    }
  }

  /** `c - '0'`, on a signed `char`. */
  function FromZero(c: char): int {
    if c as int < 128 then c as int - 48 else c as int - 304
  }

  /** The version: what two characters around a dot after `HTTP/` count; without the dot the second stays zero. */
  lemma VersionOf(a: char, c: char, b: char, rest: string, other: string)
    requires !("HTTP/" <= other) || |other| < 8
    ensures Version("HTTP/" + [a, c, b] + rest) == (FromZero(a), if c == '.' then FromZero(b) else 0)
    ensures Version(other) == (0, 0)
    ensures forall d: nat | d < 10 :: FromZero(Decimal.DIGITS[d]) == d
  {
    var s := "HTTP/" + [a, c, b] + rest;
    assert s[..5] == "HTTP/" && s[5] == a && s[6] == c && s[7] == b;
    Decimal.DigitsAre('0');
    assert |other| >= 8 && other[..5] == "HTTP/" ==> "HTTP/" <= other;
  }

  lemma RequestLineRoundTrip(m: Message)
    requires MessageOk(m)
    ensures var (ok, r) := ParseRequestLine(ShowRequestLine(m));
      ok && StoredAs(m.verb, r.verb) && r == Parsed(r.verb, m.path, m.query.GetOr(""), [], 0, m.major, m.minor)
  {
    hide ParseRequestLine, Version, StoredAs, IsLine;
    var version := "HTTP/" + [Decimal.DigitChar(m.major), '.', Decimal.DigitChar(m.minor)];
    Decimal.DigitsAre('0');
    assert version == "HTTP/" + [Decimal.DIGITS[m.major], '.', Decimal.DIGITS[m.minor]] + "";
    VersionOf(Decimal.DIGITS[m.major], '.', Decimal.DIGITS[m.minor], "", "");
    RequestLineIs(m.verb, m.path, m.query, version);
    assert ShowRequestLine(m) == m.verb + " " + ShowTarget(m.path, m.query) + " " + version;
  }

  /** A header line: the name before the first colon, and the value after it and its leading spaces. */
  lemma HeaderLineIs(name: string, spaces: string, value: string)
    requires ':' !in name && (forall k | 0 <= k < |spaces| :: spaces[k] == ' ') && (value == "" || value[0] != ' ')
    ensures ParseHeader(name + ":" + spaces + value) == Some(Header(First(name, 127), First(value, 4095)))
    ensures ParseHeader(name) == None
  {
    hide Split;
    assert name + ":" + spaces + value == name + [':'] + (spaces + value);
    SplitChar(name, ':', spaces + value);
    TrimsTo(spaces, value);
  }

  lemma {:induction false} TrimsTo(spaces: string, value: string)
    requires (forall k | 0 <= k < |spaces| :: spaces[k] == ' ') && (value == "" || value[0] != ' ')
    ensures TrimSpaces(spaces + value) == value
  {
    if spaces == "" {
      assert spaces + value == value;
    } else {
      assert (spaces + value)[1..] == spaces[1..] + value;
      TrimsTo(spaces[1..], value);
    }
  }

  // Names without regard to case.

  /** The same letter, as a capital and as a small one. */
  ghost predicate CasesOf(a: char, b: char) {
    exists i :: 0 <= i < 13 && ((a == A_TO_M[i] && b == SMALL_A_TO_M[i]) || (a == N_TO_Z[i] && b == SMALL_N_TO_Z[i]))
  }

  lemma LowerCharIs(c: char)
    ensures CasesOf(c, LowerChar(c)) || (LowerChar(c) == c && forall b :: !CasesOf(c, b))
    ensures forall b :: CasesOf(c, b) ==> b == LowerChar(c)
  {
    hide A_TO_M, N_TO_Z, SMALL_A_TO_M, SMALL_N_TO_Z;
    LettersAre(0);
    forall i | 0 <= i < 13
      ensures A_TO_M[i] as int == 'A' as int + i && SMALL_A_TO_M[i] as int == 'a' as int + i
      ensures N_TO_Z[i] as int == 'N' as int + i && SMALL_N_TO_Z[i] as int == 'n' as int + i
    {
      LettersAre(i);
    }
    if 'A' <= c <= 'M' {
      assert c == A_TO_M[c as int - 65] && LowerChar(c) == SMALL_A_TO_M[c as int - 65];
    } else if 'N' <= c <= 'Z' {
      assert c == N_TO_Z[c as int - 78] && LowerChar(c) == SMALL_N_TO_Z[c as int - 78];
    }
  }

  /** Two names are the same exactly if each pair of characters is the same, or the two cases of one letter. */
  lemma SameNameIs(a: string, b: string)
    ensures SameName(a, b) <==>
      |a| == |b| && forall k | 0 <= k < |a| :: a[k] == b[k] || CasesOf(a[k], b[k]) || CasesOf(b[k], a[k])
  {
    hide CasesOf, LowerChar;
    if |a| == |b| {
      forall k | 0 <= k < |a|
        ensures LowerChar(a[k]) == LowerChar(b[k]) <==> a[k] == b[k] || CasesOf(a[k], b[k]) || CasesOf(b[k], a[k])
      {
        SameLetter(a[k], b[k]);
      }
    }
  }

  lemma SmallStays(c: char, b: char)
    requires CasesOf(c, b)
    ensures LowerChar(b) == b
  {}

  lemma SameLetter(a: char, b: char)
    ensures LowerChar(a) == LowerChar(b) <==> a == b || CasesOf(a, b) || CasesOf(b, a)
  {
    hide CasesOf, LowerChar;
    LowerCharIs(a);
    LowerCharIs(b);
    if CasesOf(a, b) {
      SmallStays(a, b);
    }
    if CasesOf(b, a) {
      SmallStays(b, a);
    }
    CapitalIs(a, b);
  }

  lemma CapitalIs(a: char, b: char)
    ensures LowerChar(a) == LowerChar(b) && LowerChar(a) != a && LowerChar(b) != b ==> a == b
  {}

  lemma HeaderRoundTrip(h: Header)
    requires HeaderOk(h)
    ensures ParseHeader(ShowHeader(h)) == Some(h)
  {
    hide Split;
    SplitChar(h.name, ':', " " + h.value);
    assert (" " + h.value)[1..] == h.value && TrimSpaces(h.value) == h.value;
  }

  lemma {:induction false} HeadersRoundTrip(hs: seq<Header>)
    requires forall h | h in hs :: HeaderOk(h)
    ensures HeadersOf(ShowHeaders(hs)) == hs && AreHeaderLines(ShowHeaders(hs))
    ensures NulFree(ShowLines(ShowHeaders(hs)))
  {
    hide ParseHeader;
    if hs != [] {
      assert hs[0] in hs;
      HeaderRoundTrip(hs[0]);
      HeadersRoundTrip(hs[1..]);
      assert ShowHeaders(hs)[1..] == ShowHeaders(hs[1..]);
      assert ShowHeaders(hs) == [ShowHeader(hs[0])] + ShowHeaders(hs[1..]);
    }
  }

  lemma AnnouncedLength(hs: seq<Header>, k: nat, length: nat)
    requires Announces(hs, k, length) && length <= Decimal.LONG_MAX
    ensures ContentLength(hs) == length
  {
    HeaderValueSkips(hs, k, CONTENT_LENGTH);
    Decimal.StrtolShow(length, "");
    assert Decimal.Show(length) + "" == Decimal.Show(length);
  }

  /** Parsing a printed request gives back every field of it. */
  lemma MessageParses(m: Message, mem: string)
    requires MessageOk(m) && ShowMessage(m) <= mem
    ensures var n := |ShowMessage(m)|;
      var (ok, r) := Parse(mem, n);
      && ok && r.bodyOffset == n - |m.body| && StoredAs(m.verb, r.verb)
      && r == Parsed(r.verb, m.path, m.query.GetOr(""), m.headers, r.bodyOffset, m.major, m.minor)
  {
    hide Parse, ParseRequestLine, ShowRequestLine, ShowHeaders, HeadersOf, ShowLines, AreHeaderLines, StoredAs;
    var first, lines := ShowRequestLine(m), ShowHeaders(m.headers);
    HeadersRoundTrip(m.headers);
    RequestLineRoundTrip(m);
    RequestLineNulFree(m);
    assert ShowHead(first, lines) <= ShowMessage(m);
    ParseIsSplit(mem, |ShowMessage(m)|, first, lines);
  }

  /**
   * And reading its content gives as many bytes of what
   * follows the head as are announced or asked for, or as there are; so, where the length announced is that of
   * the body, the body.
   */
  lemma RequestRoundTrip(m: Message, k: nat, announced: nat, mem: string, length: int)
    requires MessageOk(m) && Announces(m.headers, k, announced) && announced <= Decimal.LONG_MAX
    requires ShowMessage(m) <= mem
    ensures var n := |ShowMessage(m)|;
      var (ok, r) := Parse(mem, n);
      && ok && r.bodyOffset == n - |m.body| && StoredAs(m.verb, r.verb)
      && r == Parsed(r.verb, m.path, m.query.GetOr(""), m.headers, r.bodyOffset, m.major, m.minor)
      && (Content(mem, n, r, 0) == if announced == 0 then None else Some(First(m.body, announced)))
      && (length > 0 ==> Content(mem, n, r, length) == Some(First(m.body, length)))
      && (length < 0 ==> Content(mem, n, r, length) == None)
  {
    hide Parse, ParseRequestLine, ShowRequestLine, ShowHeaders, HeadersOf, ShowLines, AreHeaderLines, Announces,
         StoredAs;
    var head := ShowHead(ShowRequestLine(m), ShowHeaders(m.headers));
    MessageParses(m, mem);
    AnnouncedLength(m.headers, k, announced);
    TailOf(mem, head, m.body);
    ContentIs(mem, |head|, m.body, announced);
    if length > 0 {
      ContentIs(mem, |head|, m.body, length);
    }
  }

  lemma TailOf(mem: string, head: string, body: string)
    requires head + body <= mem
    ensures |head| + |body| <= |mem| && mem[|head|..|head| + |body|] == body
  {
    assert mem[..|head| + |body|] == head + body;
  }

  lemma ContentIs(mem: string, from: nat, body: string, length: nat)
    requires from + |body| <= |mem| && mem[from..from + |body|] == body
    ensures length <= |body| ==> mem[from..from + length] == First(body, length)
    ensures length > |body| ==> mem[from..from + |body|] == First(body, length)
  {
    if length <= |body| {
      assert body[..length] == mem[from..from + |body|][..length] == mem[from..from + length];
    }
  }

  /** A request that announces no length has no content unless a length is asked for. */
  lemma {:induction false} NothingAnnounced(hs: seq<Header>)
    requires forall h | h in hs :: !SameName(h.name, "Content-Length")
    ensures ContentLength(hs) == 0
  {
    if hs != [] {
      assert hs[0] in hs;
      NothingAnnounced(hs[1..]);
    }
  }

  lemma RequestLineNulFree(m: Message)
    requires MessageOk(m)
    ensures NulFree(ShowRequestLine(m))
  {}

  // ---------- the code ----------

  // Where the searches of the parser end: `strstr` has no bound but a zero byte.

  /** Every search of the walk from `pos`, with `stored` headers stored, ends inside the block. */
  ghost predicate WalkStops(mem: string, n: nat, pos: nat, stored: nat)
    requires n <= |mem|
    decreases |mem| - pos
  {
    || pos >= n || stored >= MAX_HEADERS
    || (mem[pos] == '\r' && pos + 1 < n && mem[pos + 1] == '\n')
    || (Searchable(mem, pos, CRLF)
        && match StrStrAt(mem, pos, CRLF)
           case None => true
           case Some(e) => WalkStops(mem, n, e + 2, stored + if ParseHeader(mem[pos..e]).Some? then 1 else 0))
  }

  /** Every search of the parser ends inside the block. */
  ghost predicate Stops(mem: string, n: nat) {
    && n <= |mem|
    && (n == 0 || (Searchable(mem, 0, CRLF)
                   && match StrStrAt(mem, 0, CRLF)
                      case None => true
                      case Some(e) => !ParseRequestLine(mem[..e]).0 || WalkStops(mem, n, e + 2, 0)))
  }

  /** A text cut at its line breaks; the last line is what follows the last of them. */
  function Lines(text: string): (lines: seq<string>)
    ensures lines != [] && |Last(lines)| <= |text|
    decreases |text|
  {
    match Split(text, CRLF)
    case Uncut => [text]
    case Cut(line, rest) =>
      SplitIsCut(text, CRLF);
      [line] + Lines(rest)
  }

  function Last(lines: seq<string>): string
    requires lines != []
  {
    lines[|lines| - 1]
  }

  /** The lines that end with a line break. */
  function Ended(lines: seq<string>): seq<string>
    requires lines != []
  {
    lines[..|lines| - 1]
  }

  /** A walk that stops: the last line is never searched. */
  predicate Enough(size: nat, n: nat, stored: nat, lines: seq<string>)
    requires lines != []
  {
    n + |Last(lines)| <= size || "" in Ended(lines) || stored + |HeadersOf(Ended(lines))| >= MAX_HEADERS
  }

  lemma BreakIs(mem: string, k: nat)
    ensures OccursAt(mem, CRLF, k) <==> k + 2 <= |mem| && mem[k] == '\r' && mem[k + 1] == '\n'
  {
    assert k + 2 <= |mem| ==> mem[k..k + 2] == [mem[k], mem[k + 1]];
  }

  /** Where no line break follows, a search does not end inside a block without zero bytes. */
  lemma NoLineLeft(mem: string, pos: nat)
    requires pos <= |mem| && NulFree(mem) && Split(mem[pos..], CRLF) == Uncut
    ensures !Searchable(mem, pos, CRLF)
    ensures pos + 1 < |mem| ==> !(mem[pos] == '\r' && mem[pos + 1] == '\n')
  {
    hide Find;
    CStrOfTail(mem, pos);
    forall k | pos <= k < |mem| ensures mem[k] != NUL && !OccursAt(mem, CRLF, k) {
      assert mem[k] in mem;
      OccursInMemory(mem, pos, CRLF, k - pos);
      assert !OccursAt(mem[pos..], CRLF, k - pos);
    }
    if pos < |mem| {
      BreakIs(mem, pos);
    }
  }

  /** Where one follows, the search finds the first. */
  lemma LineLeft(mem: string, pos: nat)
    requires pos <= |mem| && NulFree(mem) && Split(mem[pos..], CRLF).Cut?
    ensures var c := Split(mem[pos..], CRLF);
      var e := pos + |c.before|;
      && e + 2 <= |mem| && Searchable(mem, pos, CRLF) && StrStrAt(mem, pos, CRLF) == Some(e)
      && mem[pos..e] == c.before && mem[e + 2..] == c.after && OccursAt(mem, CRLF, e)
      && (c.before != "" ==> !OccursAt(mem, CRLF, pos))
  {
    hide Find;
    CStrOfTail(mem, pos);
    var d := Find(mem[pos..], CRLF).value;
    OccursInMemory(mem, pos, CRLF, d);
    OccursInMemory(mem, pos, CRLF, 0);
    assert mem[pos..][..d] == mem[pos..pos + d] && mem[pos..][d + 2..] == mem[pos + d + 2..];
  }

  lemma EndedMore(line: string, rest: seq<string>)
    requires rest != []
    ensures Ended([line] + rest) == [line] + Ended(rest) && Last([line] + rest) == Last(rest)
  {}

  lemma LinesFirst(text: string)
    ensures match Split(text, CRLF)
      case Uncut => Lines(text) == [text] && Ended(Lines(text)) == []
      case Cut(line, rest) =>
        && |rest| < |text| && Last(Lines(text)) == Last(Lines(rest))
        && Ended(Lines(text)) == [line] + Ended(Lines(rest))
  {
    hide Split, FirstAt;
    SplitIsCut(text, CRLF);
    match Split(text, CRLF)
    case Uncut =>
    case Cut(line, rest) => EndedMore(line, Lines(rest));
  }

  lemma EnoughFirst(size: nat, n: nat, stored: nat, line: string, rest: seq<string>, lines: seq<string>)
    requires rest != [] && lines != [] && Last(lines) == Last(rest) && Ended(lines) == [line] + Ended(rest)
    ensures line != "" ==>
      Enough(size, n, stored, lines) ==
      Enough(size, n, stored + if ParseHeader(line).Some? then 1 else 0, rest)
    ensures line == "" || stored >= MAX_HEADERS ==> Enough(size, n, stored, lines)
  {
    hide ParseHeader;
    assert ([line] + Ended(rest))[1..] == Ended(rest);
  }

  /** The walk over a block without zero bytes stops inside it exactly if it never searches the last line. */
  lemma {:induction false} WalkStopsIff(mem: string, n: nat, pos: nat, stored: nat)
    requires n <= |mem| && pos <= |mem| && NulFree(mem)
    ensures WalkStops(mem, n, pos, stored) <==> Enough(|mem|, n, stored, Lines(mem[pos..]))
    decreases |mem| - pos
  {
    hide Split, Searchable, StrStrAt, ParseHeader, NulFree, Lines, Last, Ended, HeadersOf;
    var u := mem[pos..];
    LinesFirst(u);
    match Split(u, CRLF)
    case Uncut =>
      NoLineLeft(mem, pos);
      OneLine(u, n, |mem|, stored);
    case Cut(line, rest) =>
      LineLeft(mem, pos);
      BreakIs(mem, pos);
      var e := pos + |line|;
      BreakIs(mem, e);
      EnoughFirst(|mem|, n, stored, line, Lines(rest), Lines(u));
      LastFits(rest);
      if pos < n && stored < MAX_HEADERS && !(line == "" && pos + 1 < n) {
        WalkStopsIff(mem, n, e + 2, stored + if ParseHeader(line).Some? then 1 else 0);
      }
  }

  lemma OneLine(u: string, n: nat, size: nat, stored: nat)
    requires |u| <= size && Lines(u) == [u]
    ensures Enough(size, n, stored, [u]) <==> n <= size - |u| || stored >= MAX_HEADERS
  {}

  lemma LastFits(text: string)
    ensures |Last(Lines(text))| <= |text|
  {}

  /** A search that meets a zero byte ends there, and so does the walk. */
  lemma {:induction false} WalkStopsAtNul(mem: string, n: nat, pos: nat, stored: nat)
    requires n <= |mem| && NUL in mem && pos <= |CStr(mem)|
    ensures WalkStops(mem, n, pos, stored)
    decreases |mem| - pos
  {
    hide CStr, Searchable, ParseHeader, StrStrAt;
    WithinCStr(mem, pos);
    var r := StrStrAt(mem, pos, CRLF);
    if r.Some? {
      WalkStopsAtNul(mem, n, r.value + 2, stored + if ParseHeader(mem[pos..r.value]).Some? then 1 else 0);
    }
  }

  lemma WithinCStr(mem: string, pos: nat)
    requires NUL in mem && pos <= |CStr(mem)|
    ensures |CStr(mem)| < |mem| && Searchable(mem, pos, CRLF)
    ensures StrStrAt(mem, pos, CRLF).Some? ==> pos <= StrStrAt(mem, pos, CRLF).value <= |CStr(mem)| - 2
  {
    InBlock(mem);
    StrStrInString(mem, pos, CRLF);
  }

  lemma InBlock(mem: string)
    requires NUL in mem
    ensures |CStr(mem)| < |mem|
  {
    assert |CStr(mem)| == |mem| ==> CStr(mem) == mem;
  }

  /**
   * Exactly when the parser's searches end inside the block: nothing has been read, or there is a zero byte
   * anywhere, or else, with the block cut at its line breaks, there is one, and the request line is rejected,
   * or the bytes read end before the last line does, or an empty line or enough headers come first.
   */
  lemma StopsIff(mem: string, n: nat)
    requires n <= |mem|
    ensures var lines := Lines(mem);
      Stops(mem, n) <==>
        || n == 0 || NUL in mem
        || (|lines| > 1 && (!ParseRequestLine(lines[0]).0 || Enough(|mem|, n, 0, lines[1..])))
  {
    hide Split, Searchable, StrStrAt, ParseRequestLine, WalkStops, Enough;
    if n > 0 {
      if NUL in mem {
        WithinCStr(mem, 0);
        var r := StrStrAt(mem, 0, CRLF);
        if r.Some? {
          WalkStopsAtNul(mem, n, r.value + 2, 0);
        }
      } else {
        assert mem[0..] == mem;
        match Split(mem, CRLF)
        case Uncut => NoLineLeft(mem, 0);
        case Cut(first, rest) =>
          LineLeft(mem, 0);
          assert Lines(mem)[1..] == Lines(rest) && mem[0..|first|] == mem[..|first|];
          WalkStopsIff(mem, n, |first| + 2, 0);
      }
    }
  }

  lemma {:induction false} LinesOfShown(lines: seq<string>, last: string)
    requires (forall line | line in lines :: IsLine(line)) && IsLine(last)
    ensures Lines(ShowLines(lines) + last) == lines + [last]
  {
    hide FirstAt, Contains, Split;
    var text := ShowLines(lines) + last;
    if lines == [] {
      assert text == last;
      CutIsSplit(last, CRLF, Uncut);
    } else {
      assert lines[0] in lines;
      var rest := ShowLines(lines[1..]) + last;
      assert text == lines[0] + CRLF + rest;
      BorderFreeAppend(lines[0], CRLF);
      CutIsSplit(text, CRLF, Cut(lines[0], rest));
      LinesOfShown(lines[1..], last);
    }
  }

  lemma LinesOfHead(lines: seq<string>, last: string)
    requires AreHeaderLines(lines) && IsLine(last)
    ensures Lines(ShowLines(lines) + last) == lines + [last]
  {
    hide IsLine, ShowLines, Lines;
    LinesOfShown(lines, last);
  }

  /** A read that fills the buffer and holds no zero byte, line by line. */
  lemma FullReadStops(first: string, lines: seq<string>, last: string)
    requires IsLine(first) && IsLine(last) && forall line | line in lines :: IsLine(line)
    requires NulFree(first + CRLF + ShowLines(lines) + last)
    ensures var mem := first + CRLF + ShowLines(lines) + last;
      Stops(mem, |mem|) <==>
        !ParseRequestLine(first).0 || last == "" || "" in lines || |HeadersOf(lines)| >= MAX_HEADERS
  {
    hide IsLine, Stops, ParseRequestLine, ParseHeader, ShowLines, HeadersOf, NulFree;
    var mem, all := first + CRLF + ShowLines(lines) + last, [first] + lines;
    ShownMore(first, lines);
    assert mem == ShowLines(all) + last && forall line | line in all :: IsLine(line);
    LinesOfShown(all, last);
    assert Lines(mem)[1..] == lines + [last] && Ended(lines + [last]) == lines;
    StopsIff(mem, |mem|);
    assert NUL !in mem by { NulFreeIs(mem); }
  }

  lemma NulFreeIs(s: string)
    ensures NulFree(s) <==> NUL !in s
  {}

  lemma ShownMore(first: string, lines: seq<string>)
    ensures ShowLines([first] + lines) == first + CRLF + ShowLines(lines)
  {
    assert ([first] + lines)[1..] == lines;
  }

  /** ... and without any line break there is no end. */
  lemma NoBreakNoStop(mem: string)
    requires mem != "" && NulFree(mem) && IsLine(mem)
    ensures !Stops(mem, |mem|)
  {
    hide Stops;
    CutIsSplit(mem, CRLF, Uncut);
    StopsIff(mem, |mem|);
  }

  const UNFINISHED: string := "GET / HTTP/1.1"

  /**
   * A buffer full of a request line and the start of a header: the search for the end of that header runs on
   * past the buffer. One that ends with the line break is parsed inside it, and so is one without a request.
   */
  lemma Unfinished()
    ensures var mem := UNFINISHED + CRLF + "A"; !Stops(mem, |mem|)
    ensures var mem := UNFINISHED + CRLF; Stops(mem, |mem|)
    ensures var mem := "X" + CRLF + "A"; Stops(mem, |mem|)
  {
    hide Stops, ParseRequestLine, IsLine;
    UnfinishedLine();
    FullReadStops(UNFINISHED, [], "A");
    FullReadStops(UNFINISHED, [], "");
    FullReadStops("X", [], "A");
    assert UNFINISHED + CRLF + ShowLines([]) + "A" == UNFINISHED + CRLF + "A";
    assert UNFINISHED + CRLF + ShowLines([]) + "" == UNFINISHED + CRLF;
    assert "X" + CRLF + ShowLines([]) + "A" == "X" + CRLF + "A";
  }

  lemma UnfinishedRequest()
    ensures ParseRequestLine(UNFINISHED).0 && !ParseRequestLine("X").0
  {
    hide Find, Version, Verb, Fit;
    assert UNFINISHED == "GET" + " " + "/ HTTP/1.1" && "/ HTTP/1.1" == "/" + " " + "HTTP/1.1";
    SplitChar("GET", ' ', "/ HTTP/1.1");
    SplitChar("/", ' ', "HTTP/1.1");
    SplitChar("X", ' ', "");
    SplitChar("/", '?', "");
  }

  lemma UnfinishedLine()
    ensures ParseRequestLine(UNFINISHED).0 && !ParseRequestLine("X").0
    ensures IsLine(UNFINISHED) && IsLine("X") && IsLine("A") && IsLine("")
  {
    hide ParseRequestLine;
    UnfinishedRequest();
    forall s, j: nat | s in [UNFINISHED, "X", "A", ""] ensures !OccursAt(s, CRLF, j) {
      BreakIs(s, j);
    }
  }

  /** Where the walk has an empty line before it. */
  ghost predicate AtLine(mem: string, n: nat, pos: nat) {
    pos < n <= |mem| && exists e: nat :: e + 4 <= n && OccursAt(mem, BLANK, e) && (pos <= e || pos == e + 2)
  }

  /** An empty line within the bytes read is enough. */
  lemma BlankStops(mem: string, n: nat, e: nat)
    requires e + 4 <= n <= |mem| && OccursAt(mem, BLANK, e)
    ensures Stops(mem, n)
  {
    hide Searchable, StrStrAt, ParseRequestLine, WalkStops, OccursAt;
    assert AtLine(mem, n, 0);
    NextLine(mem, n, 0);
    var r := StrStrAt(mem, 0, CRLF);
    if r.Some? {
      WalkStopsAtBlank(mem, n, r.value + 2, 0);
    }
  }

  lemma {:induction false} WalkStopsAtBlank(mem: string, n: nat, pos: nat, stored: nat)
    requires n <= |mem| && (pos < n ==> AtLine(mem, n, pos))
    ensures WalkStops(mem, n, pos, stored)
    decreases |mem| - pos
  {
    hide Searchable, StrStrAt, ParseHeader, AtLine;
    if pos < n && !(mem[pos] == '\r' && pos + 1 < n && mem[pos + 1] == '\n') {
      NextLine(mem, n, pos);
      var r := StrStrAt(mem, pos, CRLF);
      if r.Some? {
        WalkStopsAtBlank(mem, n, r.value + 2, stored + if ParseHeader(mem[pos..r.value]).Some? then 1 else 0);
      }
    }
  }

  lemma BlankStarts(mem: string, e: nat)
    requires OccursAt(mem, BLANK, e)
    ensures OccursAt(mem, CRLF, e) && mem[e] == '\r' && mem[e + 1] == '\n' && mem[e + 2] == '\r' && mem[e + 3] == '\n'
  {
    var w := mem[e..e + 4];
    assert w[0] == mem[e] && w[1] == mem[e + 1] && w[2] == mem[e + 2] && w[3] == mem[e + 3];
    assert mem[e..e + 2] == w[..2];
  }

  /** A line that is not empty can be searched, and what follows its end is a line again. */
  lemma NextLine(mem: string, n: nat, pos: nat)
    requires AtLine(mem, n, pos)
    requires pos == 0 || !(mem[pos] == '\r' && pos + 1 < n && mem[pos + 1] == '\n')
    ensures Searchable(mem, pos, CRLF)
    ensures StrStrAt(mem, pos, CRLF).Some? && StrStrAt(mem, pos, CRLF).value + 2 < n ==>
      AtLine(mem, n, StrStrAt(mem, pos, CRLF).value + 2)
  {
    var e: nat :| e + 4 <= n && OccursAt(mem, BLANK, e) && (pos <= e || pos == e + 2);
    BlankStarts(mem, e);
    LineBreakBefore(mem, pos, e);
  }

  lemma FoundBreak(mem: string, pos: nat)
    requires pos <= |mem| && StrStrAt(mem, pos, CRLF).Some?
    ensures var p := StrStrAt(mem, pos, CRLF).value; p + 1 < |mem| && mem[p] == '\r' && mem[p + 1] == '\n'
  {
    var s, d := CStr(mem[pos..]), StrStrAt(mem, pos, CRLF).value - pos;
    assert s[d..d + 2] == CRLF && s[d] == s[d..d + 2][0] && s[d + 1] == s[d..d + 2][1];
    assert mem[pos + d] == s[d] && mem[pos + d + 1] == s[d + 1];
  }

  lemma NotPast(mem: string, pos: nat, e: nat)
    requires pos <= e && OccursAt(mem, CRLF, e)
    ensures StrStrAt(mem, pos, CRLF).Some? ==> StrStrAt(mem, pos, CRLF).value <= e
  {
    var r := StrStrAt(mem, pos, CRLF);
    if r.Some? && e - pos <= |CStr(mem[pos..])| {
      OccursInMemory(mem, pos, CRLF, e - pos);
    }
  }

  lemma LineBreakBefore(mem: string, pos: nat, e: nat)
    requires pos <= e && OccursAt(mem, BLANK, e)
    ensures StrStrAt(mem, pos, CRLF).Some? ==>
      var p := StrStrAt(mem, pos, CRLF).value; p + 2 <= e || p == e
  {
    hide StrStrAt;
    BlankStarts(mem, e);
    NotPast(mem, pos, e);
    if StrStrAt(mem, pos, CRLF).Some? {
      FoundBreak(mem, pos);
    }
  }

  /** The parsed request that the configuration keeps. */
  class Request {
    var verb: int
    var path: string
    var query: string
    const headers: array<Header>
    var headersCount: nat
    var bodyOffset: nat
    var major: int
    var minor: int

    ghost predicate Valid()
      reads this
    {
      headers.Length == MAX_HEADERS && headersCount <= MAX_HEADERS
    }

    ghost function State(): Parsed
      requires Valid()
      reads this, headers
    {
      Parsed(verb, path, query, headers[..headersCount], bodyOffset, major, minor)
    }

    constructor ()
      ensures Valid() && fresh(headers) && State() == RESET
    {
      headers := new Header[MAX_HEADERS](_ => Header("", ""));
      verb, path, query, headersCount, bodyOffset, major, minor := UNKNOWN, "", "", 0, 0, 0, 0;
    }

    /** Method, path, query string and version. */
    method ParseFirstLine(line: string) returns (ok: bool)
      requires Valid() && State() == RESET
      modifies `verb, `path, `query, `major, `minor
      ensures Valid() && (ok, State()) == ParseRequestLine(line)
    {
      hide Find, Version, Verb, Fit, DigitOf;
      var space := MemChr(line, ' ');
      if space == None {
        return false;
      }
      verb := Verb(line[..space.value]);
      var rest := line[space.value + 1..];
      var uriEnd := MemChr(rest, ' ');
      if uriEnd == None {
        return false;
      }
      var uri := rest[..uriEnd.value];
      var queryStart := MemChr(uri, '?');
      if queryStart != None {
        path := Fit(uri[..queryStart.value], MAX_PATH);
        query := Fit(uri[queryStart.value + 1..], MAX_PATH);
      } else {
        path := Fit(uri, MAX_PATH);
      }
      ReadVersion(rest[uriEnd.value + 1..]);
      ok := true;
    }

    method ReadVersion(rest: string)
      requires major == 0 && minor == 0
      modifies `major, `minor
      ensures (major, minor) == Version(rest)
    {
      if |rest| >= 8 && rest[..5] == "HTTP/" {
        major := DigitOf(rest[5]);
        if rest[6] == '.' {
          minor := DigitOf(rest[7]);
        }
      }
    }

    /** One header line: find the colon, and cut name and value to what fits. */
    method ReadHeader(mem: string, pos: nat, headerEnd: nat) returns (header: Option<Header>)
      requires pos <= headerEnd <= |mem|
      ensures header == ParseHeader(mem[pos..headerEnd])
    {
      hide Find, TrimSpaces;
      ghost var line := mem[pos..headerEnd];
      var colon := MemChr(mem[pos..headerEnd], ':');
      if colon == None {
        return None;
      }
      var nameLen := colon.value;
      if nameLen >= MAX_HEADER_NAME {
        nameLen := MAX_HEADER_NAME - 1;
      }
      NameFits(mem, pos, headerEnd, colon.value);
      var value := ReadValue(mem, pos + colon.value + 1, headerEnd);
      header := Some(Header(mem[pos..pos + nameLen], value));
    }

    lemma NameFits(mem: string, pos: nat, headerEnd: nat, colon: nat)
      requires pos + colon < headerEnd <= |mem|
      ensures var n := if colon >= MAX_HEADER_NAME then MAX_HEADER_NAME - 1 else colon;
        mem[pos..pos + n] == Fit(mem[pos..headerEnd][..colon], MAX_HEADER_NAME)
      ensures mem[pos + colon + 1..headerEnd] == mem[pos..headerEnd][colon + 1..]
    {
      var n := if colon >= MAX_HEADER_NAME then MAX_HEADER_NAME - 1 else colon;
      assert mem[pos..headerEnd][..colon] == mem[pos..pos + colon];
      assert mem[pos..pos + colon][..n] == mem[pos..pos + n];
    }

    /** The value after the colon: skip its leading spaces, and cut it to what fits. */
    method ReadValue(mem: string, start: nat, headerEnd: nat) returns (value: string)
      requires start <= headerEnd <= |mem|
      ensures value == Fit(TrimSpaces(mem[start..headerEnd]), MAX_HEADER_VALUE)
    {
      var valStart := start;
      while valStart < headerEnd && mem[valStart] == ' '
        invariant start <= valStart <= headerEnd
        invariant TrimSpaces(mem[valStart..headerEnd]) == TrimSpaces(mem[start..headerEnd])
      {
        assert mem[valStart..headerEnd][1..] == mem[valStart + 1..headerEnd];
        valStart := valStart + 1;
      }
      var valLen := headerEnd - valStart;
      if valLen >= MAX_HEADER_VALUE {
        valLen := MAX_HEADER_VALUE - 1;
      }
      assert mem[valStart..headerEnd] == TrimSpaces(mem[start..headerEnd]);
      assert mem[valStart..headerEnd][..valLen] == mem[valStart..valStart + valLen];
      value := mem[valStart..valStart + valLen];
    }

    /** The header lines, from `start`. */
    method ParseHeaderLines(mem: string, position: nat, start: nat)
      requires Valid() && headersCount == 0 && bodyOffset == 0
      requires position <= |mem| && start <= |mem| && WalkStops(mem, position, start, 0)
      modifies `headersCount, `bodyOffset, headers
      ensures Valid() && (headers[..headersCount], bodyOffset) == Walk(mem, position, start, [])
    {
      hide StrStrAt, Searchable, ParseHeader;
      var pos := start;
      while pos < position && headersCount < MAX_HEADERS
        invariant Valid() && bodyOffset == 0
        invariant pos <= |mem| && WalkStops(mem, position, pos, headersCount)
        invariant Walk(mem, position, start, []) == Walk(mem, position, pos, headers[..headersCount])
        decreases |mem| - pos
      {
        if mem[pos] == '\r' && pos + 1 < position && mem[pos + 1] == '\n' {
          bodyOffset := pos + 2;
          break;
        }
        var headerEnd := StrStr(mem, pos, CRLF);
        if headerEnd == None {
          break;
        }
        var header := ReadHeader(mem, pos, headerEnd.value);
        if header.Some? {
          ghost var stored := headers[..headersCount];
          headers[headersCount] := header.value;
          headersCount := headersCount + 1;
          assert headers[..headersCount] == stored + [header.value];
        }
        pos := headerEnd.value + 2;
      }
    }

    method ParseQueryHeaders(buffer: array<char>, position: nat) returns (ok: bool)
      requires Valid() && Stops(buffer[..], position)
      modifies this, headers
      ensures Valid() && (ok, State()) == Parse(buffer[..], position)
    {
      hide StrStrAt, Searchable, WalkStops, ParseRequestLine, Walk;
      verb, path, query, headersCount, bodyOffset, major, minor := UNKNOWN, "", "", 0, 0, 0, 0;
      var mem := buffer[..];
      if position == 0 {
        return false;
      }
      var lineEnd := StrStr(mem, 0, CRLF);
      if lineEnd == None {
        return false;
      }
      ok := ParseFirstLine(mem[..lineEnd.value]);
      if ok {
        ParseHeaderLines(mem, position, lineEnd.value + 2);
      }
    }

    /** `wrd_http_get_header` */
    method GetHeader(name: string) returns (value: Option<string>)
      requires Valid()
      ensures value == HeaderValue(State().headers, name)
    {
      ghost var hs := State().headers;
      for i := 0 to headersCount
        invariant forall j | 0 <= j < i :: !SameName(hs[j].name, name)
      {
        if SameName(headers[i].name, name) {
          HeaderValueSkips(hs, i, name);
          return Some(headers[i].value);
        }
      }
      HeaderValueSkips(hs, headersCount, name);
      value := None;
    }

    /** `wrd_read_content`: a fresh, zero-terminated copy of the body. */
    method ReadContent(buffer: array<char>, position: nat, length: int) returns (data: Option<array<char>>)
      requires Valid() && bodyOffset <= position <= buffer.Length
      ensures match Content(buffer[..], position, State(), length)
        case None => data == None
        case Some(body) => data.Some? && fresh(data.value) && data.value[..] == body + [NUL]
    {
      hide HeaderValue;
      var len := length;
      if length == 0 {
        var value := GetHeader(CONTENT_LENGTH);
        len := if value == None then 0 else Decimal.Strtol(value.value);
      }
      if len <= 0 {
        return None;
      }
      var available := position - bodyOffset;
      if len > available {
        len := available;
      }
      var block := CopyBody(buffer, bodyOffset, len);
      data := Some(block);
    }

    method CopyBody(buffer: array<char>, start: nat, len: nat) returns (block: array<char>)
      requires start + len <= buffer.Length
      ensures fresh(block) && block[..] == buffer[start..start + len] + [NUL]
    {
      block := new char[len + 1];
      for k := 0 to len
        invariant block[..k] == buffer[start..start + k]
      {
        block[k] := buffer[start + k];
      }
      block[len] := NUL;
      assert block[..] == block[..len] + [NUL];
    }
  }
}
