/**
 * The multipart/form-data scanner of src/query.c and the printer it inverts.
 *
 * `ParseFormdata` walks an index over the body; `Scan` is what it computes. `Anatomy` is an independent
 * grammar of such bodies, and `Print` writes a list of parts the way a client does.
 */
module Multipart {
  import opened CStrings
  import Decimal

  const PARSER_EMPTY := -32
  const PARSER_EMPTY_BOUNDARY := -33
  const PARSER_VOID := -34
  const PARSER_NO_BOUNDARY := -35
  const PARSER_MISSING_END := -36
  const PARSER_MISSING_CONTENT := -37
  const PARSER_MISSING_BODY := -38

  const DISPOSITION: string := "\r\nContent-Disposition: form-data; name=\""
  const NAME_END: string := "\"\r\n\r\n"
  const CLOSING: string := "--\r\n"

  // ---------- boundaries ----------

  predicate IsBoundaryChar(c: char) {
    c == '-' || c == '_' || '0' <= c <= '9' || 'a' <= c <= 'z' || 'A' <= c <= 'Z'
  }

  predicate ValidBoundary(b: string) {
    b != "" && forall c | c in b :: IsBoundaryChar(c)
  }

  /** A boundary character is a letter, a digit, a dash or an underscore. */
  lemma BoundaryCharIs(c: char)
    ensures IsBoundaryChar(c) <==>
      || c in A_TO_M || c in N_TO_Z || c in SMALL_A_TO_M || c in SMALL_N_TO_Z || c in Decimal.DIGITS || c in "-_"
  {
    hide A_TO_M, N_TO_Z, SMALL_A_TO_M, SMALL_N_TO_Z, Decimal.DIGITS;
    LettersHave(c);
    Decimal.DigitsAre(c);
  }

  method IsValidBoundary(mem: string) returns (valid: bool)
    requires NUL in mem
    ensures valid <==> ValidBoundary(CStr(mem))
  {
    var count := 0;
    while mem[count] != NUL
      invariant count <= |CStr(mem)|
      invariant forall c | c in CStr(mem)[..count] :: IsBoundaryChar(c)
      decreases |mem| - count
    {
      assert count < |CStr(mem)|;
      if !IsBoundaryChar(mem[count]) {
        assert CStr(mem)[count] == mem[count];
        return false;
      }
      count := count + 1;
    }
    assert count == |CStr(mem)| && CStr(mem)[..count] == CStr(mem);
    valid := count != 0;
  }

  const FORM_DATA: string := "multipart/form-data; boundary="

  /** A form's Content-Type, with its boundary. */
  predicate Announces(header: string, b: string) {
    header == "multipart/form-data; boundary=" + b
  }

  lemma AfterFormData(s: string)
    ensures NulFree(FORM_DATA) && FORM_DATA != "" && |FORM_DATA| == 30
    ensures FORM_DATA <= s ==> s == FORM_DATA + s[30..]
    ensures forall b :: Announces(s, b) <==> FORM_DATA <= s && |s| == 30 + |b| && b == s[30..]
  {}

  lemma TerminatorAfter(mem: string, i: nat)
    requires NUL in mem && i <= |CStr(mem)|
    ensures NUL in mem[i..]
  {
    assert mem[i..][|CStr(mem)| - i] == NUL;
  }

  /** The boundary announced by a Content-Type value, if there is a usable one. */
  method GetFormdataBoundary(mem: string) returns (boundary: Option<string>)
    requires NUL in mem
    ensures forall b :: boundary == Some(b) <==> ValidBoundary(b) && Announces(CStr(mem), b)
  {
    hide CStr, FORM_DATA, StrStrAt, NulFree, Searchable, Announces;
    var s := CStr(mem);
    AfterFormData(s);
    if |s| < 31 {
      return None;
    }
    CStrIsNulFree(mem);
    StrStrInString(mem, 0, FORM_DATA);
    StrStrHere(s, 0, FORM_DATA);
    var at := StrStr(mem, 0, FORM_DATA);
    assert s[0..] == s;
    if at != Some(0) {
      return None;
    }
    CStrAt(mem, 30);
    TerminatorAfter(mem, 30);
    var valid := IsValidBoundary(mem[30..]);
    boundary := if valid then Some(CStr(mem[30..])) else None;
  }

  // ---------- what the scanner computes ----------

  /** The piece of the input handed to the callback: a start and a length. */
  datatype Slice = Slice(start: nat, length: nat)

  datatype Exit = Closed | Exhausted | Failed(code: int)

  datatype Outcome = Outcome(calls: seq<Slice>, exit: Exit)

  function Delimiter(b: string): string {
    "\r\n--" + b
  }

  /** Where the loop stands after a turn: at the start of another body, or out of the loop. */
  datatype State = At(index: nat, calls: seq<Slice>) | Out(outcome: Outcome)

  /**
   * One turn of the loop. `i` is 0 at first and the start of a body later; `calls` have been made
   * already. The first delimiter has no line break before it and may stand anywhere.
   */
  function Turn(s: string, length: int, delim: string, i: nat, calls: seq<Slice>): (r: State)
    requires i <= |s| && |delim| > 2
    ensures r.At? ==> i < r.index <= |s|
  {
    match StrStrAt(s, i, if i != 0 then delim else delim[2..])
    case None => Out(Outcome(calls, Failed(PARSER_NO_BOUNDARY)))
    case Some(p) =>
      if i != 0 && p != i then
        var calls' := calls + [Slice(i, p - i)];
        if length - (p + |delim|) == 4 then
          Out(Outcome(calls', if OccursAt(s, CLOSING, p + |delim|) then Closed else Failed(PARSER_MISSING_END)))
        else
          Headers(s, p + |delim|, calls')
      else
        Headers(s, i + (if i != 0 then |delim| else |delim| - 2), calls)
  }

  /** The second half of a turn, from just after a delimiter. */
  function Headers(s: string, i: nat, calls: seq<Slice>): (r: State)
    requires i <= |s|
    ensures r.At? ==> i < r.index <= |s|
  {
    if StrStrAt(s, i, DISPOSITION) != Some(i) then
      Out(Outcome(calls, Failed(PARSER_MISSING_CONTENT)))
    else
      match StrStrAt(s, i + 40, NAME_END)
      case None => Out(Outcome(calls, Failed(PARSER_MISSING_BODY)))
      case Some(p) => At(p + 5, calls)
  }

  function Loop(s: string, length: int, delim: string, state: State): Outcome
    requires state.At? ==> state.index <= |s| && |delim| > 2
    decreases if state.At? then |s| - state.index + 1 else 0
  {
    match state
    case Out(o) => o
    case At(i, calls) =>
      if length <= i then Outcome(calls, Exhausted)
      else Loop(s, length, delim, Turn(s, length, delim, i, calls))
  }

  /**
   * A callback may keep state, so its answer to a call depends on all calls made so far, the
   * current one being the last.
   */
  type Callback = seq<Slice> -> bool

  function Accepted(calls: seq<Slice>, accepts: Callback): nat {
    if calls == [] then 0
    else Accepted(calls[..|calls| - 1], accepts) + if accepts(calls) then 1 else 0
  }

  function Code(o: Outcome, accepts: Callback): int {
    if o.exit.Failed? then o.exit.code else Accepted(o.calls, accepts)
  }

  function Scan(s: string, length: int, b: string): Outcome {
    if length == 0 then
      Outcome([], Failed(PARSER_EMPTY))
    else if b == "" then
      Outcome([], Failed(PARSER_EMPTY_BOUNDARY))
    else if length < |b| * 2 + 54 then
      Outcome([], Failed(PARSER_VOID))
    else
      Loop(s, length, Delimiter(b), At(0, []))
  }

  // How far the index gets.

  /** The last value the index takes in a turn, whether the turn goes on or not. */
  function TurnIndex(s: string, length: int, delim: string, i: nat): (r: nat)
    requires i <= |s| && |delim| > 2
    ensures i <= r <= |s|
  {
    match StrStrAt(s, i, if i != 0 then delim else delim[2..])
    case None => i
    case Some(p) =>
      if i != 0 && p != i then
        if length - (p + |delim|) == 4 then i else HeadersIndex(s, p + |delim|)
      else
        HeadersIndex(s, i + (if i != 0 then |delim| else |delim| - 2))
  }

  function HeadersIndex(s: string, i: nat): (r: nat)
    requires i <= |s|
    ensures i <= r <= |s|
  {
    if StrStrAt(s, i, DISPOSITION) != Some(i) then i
    else
      match StrStrAt(s, i + 40, NAME_END)
      case None => i + 40
      case Some(p) => p + 5
  }

  lemma TurnIndexIs(s: string, length: int, delim: string, i: nat, calls: seq<Slice>)
    requires i <= |s| && |delim| > 2 && i < length
    ensures var turn, r := Turn(s, length, delim, i, calls), TurnIndex(s, length, delim, i);
      && (turn.At? ==> r == turn.index)
      && IndexFrom(s, length, delim, i) == if turn.At? then IndexFrom(s, length, delim, r) else r
  {
    hide StrStrAt;
  }

  /** The greatest value the index takes, which is its last one, from a turn that starts at `i`. */
  function IndexFrom(s: string, length: int, delim: string, i: nat): (r: nat)
    requires i <= |s| && |delim| > 2
    ensures i <= r <= |s|
    decreases |s| - i
  {
    if length <= i then i
    else
      match Turn(s, length, delim, i, [])
      case Out(_) => TurnIndex(s, length, delim, i)
      case At(j, _) => IndexFrom(s, length, delim, j)
  }

  function LastIndex(s: string, length: int, b: string): (r: nat)
    ensures r <= |s|
  {
    if b == "" || length < 2 * |b| + 54 then 0 else IndexFrom(s, length, Delimiter(b), 0)
  }

  lemma Words(b: string)
    requires NulFree(b)
    ensures |Delimiter(b)| == |b| + 4 && NulFree(Delimiter(b)) && NulFree(Delimiter(b)[2..])
    ensures NulFree(DISPOSITION) && NulFree(NAME_END) && NulFree(CLOSING)
    ensures |DISPOSITION| == 40 && |NAME_END| == 5 && |CLOSING| == 4
  {}

  /** The second half of a turn: past the header lines of a part, or an error. */
  method SkipHeaders(input: string, start: nat, ghost calls: seq<Slice>) returns (error: int, index: nat)
    requires NUL in input && start <= |CStr(input)|
    ensures index == HeadersIndex(CStr(input), start)
    ensures Headers(CStr(input), start, calls) ==
      if error == 0 then At(index, calls) else Out(Outcome(calls, Failed(error)))
  {
    hide CStr, StrStrAt, Searchable, NulFree;
    HeaderWords();
    index := start;
    StrStrInString(input, index, DISPOSITION);
    var position := StrStr(input, index, DISPOSITION);
    if position != Some(index) {
      return PARSER_MISSING_CONTENT, index;
    }
    index := index + 40;
    StrStrInString(input, index, NAME_END);
    position := StrStr(input, index, NAME_END);
    if position == None {
      return PARSER_MISSING_BODY, index;
    }
    return 0, position.value + 5;
  }

  lemma HeaderWords()
    ensures NulFree(DISPOSITION) && NulFree(NAME_END) && |DISPOSITION| == 40 && |NAME_END| == 5
  {}

  /**
   * The scanner: every call it makes to the callback, in order, and the code it returns; and how far its
   * index gets.
   */
  method ParseFormdata(input: string, length: int, boundary: string, accepts: Callback)
    returns (res: int, calls: seq<Slice>, index: nat)
    requires NUL in input && NulFree(boundary)
    ensures calls == Scan(CStr(input), length, boundary).calls
    ensures res == Code(Scan(CStr(input), length, boundary), accepts)
    ensures index == LastIndex(CStr(input), length, boundary)
  {
    hide CStr, StrStrAt, OccursAt, NulFree, Delimiter, Searchable, Accepted, DISPOSITION, NAME_END, CLOSING,
         Headers, HeadersIndex;
    res, calls, index := 0, [], 0;
    NoneAccepted(accepts);
    if length == 0 {
      return PARSER_EMPTY, [], 0;
    }
    if boundary == "" {
      return PARSER_EMPTY_BOUNDARY, [], 0;
    }
    var delim := Delimiter(boundary);
    if length < |boundary| * 2 + 54 {
      return PARSER_VOID, [], 0;
    }
    ghost var s := CStr(input);
    ghost var whole, last := Scan(s, length, boundary), LastIndex(s, length, boundary);
    Words(boundary);
    while index < length
      invariant 0 <= index <= |s|
      invariant whole == Loop(s, length, delim, At(index, calls))
      invariant last == IndexFrom(s, length, delim, index)
      invariant res == Accepted(calls, accepts)
      decreases |s| - index
    {
      var sought := if index != 0 then delim else delim[2..];
      StrStrInString(input, index, sought);
      var position := StrStr(input, index, sought);
      ghost var turn, ahead := Turn(s, length, delim, index, calls), TurnIndex(s, length, delim, index);
      TurnIndexIs(s, length, delim, index, calls);
      if position == None {
        return PARSER_NO_BOUNDARY, calls, index;
      }
      if index != 0 && position.value != index {
        var jsonLength := position.value - index;
        AcceptedCall(calls, Slice(index, jsonLength), accepts);
        calls := calls + [Slice(index, jsonLength)];
        if accepts(calls) {
          res := res + 1;
        }
        if length - (position.value + |delim|) == 4 {
          OccursInString(input, position.value + |delim|, CLOSING);
          if OccursAt(input, CLOSING, index + jsonLength + |delim|) {
            return;
          }
          return PARSER_MISSING_END, calls, index;
        }
        index := index + (jsonLength + |delim|);
      } else {
        index := index + if index != 0 then |delim| else |delim| - 2;
      }
      var error;
      error, index := SkipHeaders(input, index, calls);
      if error != 0 {
        return error, calls, index;
      }
      assert turn == At(index, calls) && ahead == index;
    }
  }

  lemma NoneAccepted(accepts: Callback)
    ensures Accepted([], accepts) == 0
  {}

  lemma AcceptedCall(calls: seq<Slice>, c: Slice, accepts: Callback)
    ensures Accepted(calls + [c], accepts) == Accepted(calls, accepts) + if accepts(calls + [c]) then 1 else 0
  {
    assert (calls + [c])[..|calls|] == calls;
  }

  // ---------- the grammar the scanner decides ----------

  datatype Part = Part(name: string, body: string)

  /** A body as the scanner sees it: parts, and then whatever made it stop. */
  datatype Anatomy =
    | NoDisposition(rest: string)               // the header of a part does not start here
    | NoNameEnd(rest: string)                   // ... starts but never ends
    | CutShort(name: string, rest: string)      // ... ends at or past `length`
    | NoDelimiter(name: string, rest: string)   // a body that no delimiter ends
    | Last(part: Part, rest: string)            // a body whose delimiter leaves exactly 4 bytes
    | More(part: Part, next: Anatomy)

  function ShowHeader(name: string): string {
    DISPOSITION + name + NAME_END
  }

  function ShowPart(p: Part, delim: string): string {
    ShowHeader(p.name) + p.body + delim
  }

  function Show(a: Anatomy, delim: string): string {
    match a
    case NoDisposition(rest) => rest
    case NoNameEnd(rest) => DISPOSITION + rest
    case CutShort(name, rest) => ShowHeader(name) + rest
    case NoDelimiter(name, rest) => ShowHeader(name) + rest
    case Last(p, rest) => ShowPart(p, delim) + rest
    case More(p, next) => ShowPart(p, delim) + Show(next, delim)
  }

  ghost predicate NameOk(name: string) {
    FirstAt(name + NAME_END, NAME_END, |name|)
  }

  ghost predicate PartOk(p: Part, delim: string) {
    NameOk(p.name) && FirstAt(p.body + delim, delim, |p.body|)
  }

  function BodyStart(i: nat, name: string): nat {
    i + 40 + |name| + 5
  }

  function PartEnd(i: nat, p: Part, delim: string): nat {
    BodyStart(i, p.name) + |p.body| + |delim|
  }

  /** The anatomy is the one the scanner meets at position `i` of an input announced as `length` bytes. */
  ghost predicate Fits(a: Anatomy, length: int, delim: string, i: nat) {
    match a
    case NoDisposition(rest) => !(DISPOSITION <= rest)
    case NoNameEnd(rest) => !Contains(rest, NAME_END)
    case CutShort(name, _) => NameOk(name) && length <= BodyStart(i, name)
    case NoDelimiter(name, rest) => NameOk(name) && BodyStart(i, name) < length && !Contains(rest, delim)
    case Last(p, _) => PartOk(p, delim) && p.body != "" && length == PartEnd(i, p, delim) + 4
    case More(p, next) =>
      && PartOk(p, delim) && BodyStart(i, p.name) < length
      && !(p.body != "" && length == PartEnd(i, p, delim) + 4)
      && Fits(next, length, delim, PartEnd(i, p, delim))
  }

  function ExitOf(a: Anatomy): Exit {
    match a
    case NoDisposition(_) => Failed(PARSER_MISSING_CONTENT)
    case NoNameEnd(_) => Failed(PARSER_MISSING_BODY)
    case CutShort(_, _) => Exhausted
    case NoDelimiter(_, _) => Failed(PARSER_NO_BOUNDARY)
    case Last(_, rest) => if CLOSING <= rest then Closed else Failed(PARSER_MISSING_END)
    case More(_, next) => ExitOf(next)
  }

  function PartsOf(a: Anatomy): seq<Part> {
    match a
    case Last(p, _) => [p]
    case More(p, next) => [p] + PartsOf(next)
    case _ => []
  }

  /** Where the non-empty bodies of a list of parts lie, the first part starting at `i`. */
  function Slices(parts: seq<Part>, delim: string, i: nat): seq<Slice> {
    if parts == [] then []
    else
      var p := parts[0];
      (if p.body == "" then [] else [Slice(BodyStart(i, p.name), |p.body|)])
      + Slices(parts[1..], delim, PartEnd(i, p, delim))
  }

  /** The scanner just after a delimiter. */
  function FromHeaders(s: string, length: int, delim: string, i: nat, calls: seq<Slice>): Outcome
    requires i <= |s| && |delim| > 2
  {
    Loop(s, length, delim, Headers(s, i, calls))
  }

  // Reading one word of the input.

  lemma Consume(s: string, i: nat, a: string, t: string)
    requires i <= |s| && s[i..] == a + t
    ensures i + |a| <= |s| && s[i + |a|..] == t && OccursAt(s, a, i)
  {
    assert s[i..][|a|..] == t && s[i..][..|a|] == a;
  }

  lemma FindsFirst(s: string, i: nat, a: string, p: string, t: string)
    requires NulFree(s) && i <= |s| && s[i..] == a + (p + t) && FirstAt(a + p, p, |a|)
    ensures StrStrAt(s, i, p) == Some(i + |a|)
  {
    FirstAtExtends(a + p, p, |a|, t);
    assert s[i..] == a + p + t;
    FindIs(s[i..], p, |a|);
    StrStrFinds(s, i, p);
  }

  lemma FindsNone(s: string, i: nat, p: string)
    requires NulFree(s) && i <= |s| && !Contains(s[i..], p)
    ensures StrStrAt(s, i, p) == None
  {
    StrStrFinds(s, i, p);
  }

  lemma ReadHeader(s: string, i: nat, name: string, t: string, calls: seq<Slice>)
    requires NulFree(s) && i <= |s| && s[i..] == ShowHeader(name) + t && NameOk(name)
    ensures BodyStart(i, name) <= |s| && s[BodyStart(i, name)..] == t
    ensures Headers(s, i, calls) == At(BodyStart(i, name), calls) && HeadersIndex(s, i) == BodyStart(i, name)
  {
    hide CStr, Contains, FirstAt, StrStrAt, NulFree;
    assert s[i..] == DISPOSITION + (name + (NAME_END + t));
    Consume(s, i, DISPOSITION, name + (NAME_END + t));
    StrStrHere(s, i, DISPOSITION);
    FindsFirst(s, i + 40, name, NAME_END, t);
    Consume(s, i + 40, name, NAME_END + t);
    Consume(s, i + 40 + |name|, NAME_END, t);
  }

  lemma ReadBody(s: string, length: int, delim: string, i: nat, p: Part, t: string, calls: seq<Slice>)
    requires NulFree(s) && |delim| > 2 && 0 < i <= |s| && s[i..] == p.body + (delim + t) && PartOk(p, delim)
    ensures var end := i + |p.body| + |delim|;
      && end <= |s| && s[end..] == t
      && Turn(s, length, delim, i, calls) ==
         if p.body == "" then Headers(s, end, calls)
         else if length == end + 4 then
           Out(Outcome(calls + [Slice(i, |p.body|)],
                       if CLOSING <= t then Closed else Failed(PARSER_MISSING_END)))
         else Headers(s, end, calls + [Slice(i, |p.body|)])
    ensures var end := i + |p.body| + |delim|;
      TurnIndex(s, length, delim, i) == if p.body != "" && length == end + 4 then i else HeadersIndex(s, end)
  {
    hide CStr, Contains, FirstAt, StrStrAt, NulFree, Headers, HeadersIndex;
    FindsFirst(s, i, p.body, delim, t);
    Consume(s, i, p.body, delim + t);
    Consume(s, i + |p.body|, delim, t);
    var end := i + |p.body| + |delim|;
    assert CLOSING <= s[end..] <==> OccursAt(s, CLOSING, end);
  }

  lemma ReadPart(s: string, length: int, delim: string, i: nat, p: Part, t: string, calls: seq<Slice>)
    requires NulFree(s) && |delim| > 2 && i <= |s| && s[i..] == ShowPart(p, delim) + t
    requires PartOk(p, delim) && BodyStart(i, p.name) < length
    ensures var end := PartEnd(i, p, delim);
      var calls' := if p.body == "" then calls else calls + [Slice(BodyStart(i, p.name), |p.body|)];
      && end <= |s| && s[end..] == t
      && FromHeaders(s, length, delim, i, calls) ==
         if p.body != "" && length == end + 4 then
           Outcome(calls', if CLOSING <= t then Closed else Failed(PARSER_MISSING_END))
         else FromHeaders(s, length, delim, end, calls')
  {
    hide CStr, Contains, FirstAt, StrStrAt, NulFree, Turn, Headers;
    assert s[i..] == ShowHeader(p.name) + (p.body + (delim + t));
    ReadHeader(s, i, p.name, p.body + (delim + t), calls);
    ReadBody(s, length, delim, BodyStart(i, p.name), p, t, calls);
    OneTurn(s, length, delim, BodyStart(i, p.name), calls);
  }

  /** Soundness: what the scanner reports about an input is what the anatomy of the input says. */
  lemma {:induction false} Determined(a: Anatomy, s: string, length: int, delim: string, i: nat, calls: seq<Slice>)
    requires NulFree(s) && |delim| > 2 && i <= |s| && s[i..] == Show(a, delim) && Fits(a, length, delim, i)
    ensures FromHeaders(s, length, delim, i, calls) == Outcome(calls + Slices(PartsOf(a), delim, i), ExitOf(a))
    decreases a
  {
    hide CStr, Contains, FirstAt, StrStrAt, NulFree, Turn, Headers, Slices, PartOk, NameOk, ShowPart, ShowHeader;
    assert Slices([], delim, i) == [] && calls + [] == calls by { NoSlices(delim, i); }
    match a
    case NoDisposition(rest) => NoHeader(s, i, calls);
    case NoNameEnd(rest) => OpenHeader(s, i, rest, calls);
    case CutShort(name, rest) => ReadHeader(s, i, name, rest, calls);
    case NoDelimiter(name, rest) =>
      ReadHeader(s, i, name, rest, calls);
      OpenBody(s, length, delim, BodyStart(i, name), calls);
      OneTurn(s, length, delim, BodyStart(i, name), calls);
    case Last(p, rest) =>
      ReadPart(s, length, delim, i, p, rest, calls);
      OneSlice(p, [], delim, i, calls);
    case More(p, next) =>
      ReadPart(s, length, delim, i, p, Show(next, delim), calls);
      var calls' := if p.body == "" then calls else calls + [Slice(BodyStart(i, p.name), |p.body|)];
      Determined(next, s, length, delim, PartEnd(i, p, delim), calls');
      OneSlice(p, PartsOf(next), delim, i, calls);
  }

  lemma NoSlices(delim: string, i: nat)
    ensures Slices([], delim, i) == []
  {}

  lemma OneSlice(p: Part, rest: seq<Part>, delim: string, i: nat, calls: seq<Slice>)
    ensures var calls' := if p.body == "" then calls else calls + [Slice(BodyStart(i, p.name), |p.body|)];
      && calls + Slices([p] + rest, delim, i) == calls' + Slices(rest, delim, PartEnd(i, p, delim))
      && (rest == [] ==> calls + Slices([p], delim, i) == calls')
  {
    var first := if p.body == "" then [] else [Slice(BodyStart(i, p.name), |p.body|)];
    var more := Slices(rest, delim, PartEnd(i, p, delim));
    assert ([p] + rest)[1..] == rest;
    assert calls + (first + more) == calls + first + more;
    NoSlices(delim, PartEnd(i, p, delim));
    assert rest == [] ==> [p] + rest == [p] && calls + first + [] == calls + first;
  }

  lemma OneTurn(s: string, length: int, delim: string, i: nat, calls: seq<Slice>)
    requires i <= |s| && |delim| > 2 && i < length
    ensures var turn := Turn(s, length, delim, i, calls);
      Loop(s, length, delim, At(i, calls)) == if turn.Out? then turn.outcome else Loop(s, length, delim, turn)
  {}

  lemma NoHeader(s: string, i: nat, calls: seq<Slice>)
    requires NulFree(s) && i <= |s| && !(DISPOSITION <= s[i..])
    ensures Headers(s, i, calls) == Out(Outcome(calls, Failed(PARSER_MISSING_CONTENT))) && HeadersIndex(s, i) == i
  {
    hide CStr, Contains, FirstAt, StrStrAt, NulFree;
    StrStrHere(s, i, DISPOSITION);
  }

  lemma OpenHeader(s: string, i: nat, rest: string, calls: seq<Slice>)
    requires NulFree(s) && i <= |s| && s[i..] == DISPOSITION + rest && !Contains(rest, NAME_END)
    ensures Headers(s, i, calls) == Out(Outcome(calls, Failed(PARSER_MISSING_BODY))) && HeadersIndex(s, i) == i + 40
  {
    hide CStr, Contains, FirstAt, StrStrAt, NulFree;
    Consume(s, i, DISPOSITION, rest);
    StrStrHere(s, i, DISPOSITION);
    FindsNone(s, i + 40, NAME_END);
  }

  lemma OpenBody(s: string, length: int, delim: string, i: nat, calls: seq<Slice>)
    requires NulFree(s) && |delim| > 2 && 0 < i <= |s| && !Contains(s[i..], delim)
    ensures Turn(s, length, delim, i, calls) == Out(Outcome(calls, Failed(PARSER_NO_BOUNDARY)))
    ensures TurnIndex(s, length, delim, i) == i
  {
    FindsNone(s, i, delim);
  }

  /** The anatomy of a text, which stands at position `i` of the input. */
  function Anatomize(t: string, length: int, delim: string, i: nat): Anatomy
    decreases |t|
  {
    if !(DISPOSITION <= t) then
      NoDisposition(t)
    else
      match Split(t[40..], NAME_END)
      case Uncut => NoNameEnd(t[40..])
      case Cut(name, v) =>
        if length <= BodyStart(i, name) then
          CutShort(name, v)
        else
          match Split(v, delim)
          case Uncut => NoDelimiter(name, v)
          case Cut(body, rest) =>
            var p := Part(name, body);
            var end := PartEnd(i, p, delim);
            if body != "" && length == end + 4 then Last(p, rest)
            else More(p, Anatomize(rest, length, delim, end))
  }

  lemma HeaderShows(t: string)
    requires DISPOSITION <= t
    ensures match Split(t[40..], NAME_END)
      case Uncut => t == DISPOSITION + t[40..] && !Contains(t[40..], NAME_END)
      case Cut(name, v) => t == ShowHeader(name) + v && NameOk(name) && |v| < |t|
  {
    hide FirstAt, Contains, Split;
    assert t == DISPOSITION + t[40..];
    SplitIsCut(t[40..], NAME_END);
  }

  /** Every text has an anatomy that fits it ... */
  lemma {:induction false} AnatomyFits(t: string, length: int, delim: string, i: nat)
    ensures var a := Anatomize(t, length, delim, i); Show(a, delim) == t && Fits(a, length, delim, i)
    decreases |t|
  {
    hide FirstAt, Contains, Split, ShowHeader, NameOk;
    if DISPOSITION <= t {
      HeaderShows(t);
      match Split(t[40..], NAME_END)
      case Uncut =>
      case Cut(name, v) =>
        SplitIsCut(v, delim);
        match Split(v, delim)
        case Uncut =>
        case Cut(body, rest) =>
          var p := Part(name, body);
          assert ShowHeader(name) + (body + delim + rest) == ShowPart(p, delim) + rest;
          AnatomyFits(rest, length, delim, PartEnd(i, p, delim));
    }
  }

  /** ... and only one. */
  lemma {:induction false} OneAnatomy(a: Anatomy, length: int, delim: string, i: nat)
    requires Fits(a, length, delim, i)
    ensures a == Anatomize(Show(a, delim), length, delim, i)
    decreases a
  {
    hide FirstAt, Contains, Split;
    var t := Show(a, delim);
    match a
    case NoDisposition(rest) =>
    case NoNameEnd(rest) =>
      assert t[40..] == rest;
      CutIsSplit(rest, NAME_END, Uncut);
    case CutShort(name, rest) => HeaderOf(t, name, rest);
    case NoDelimiter(name, rest) =>
      HeaderOf(t, name, rest);
      CutIsSplit(rest, delim, Uncut);
    case Last(p, rest) => PartOf(t, p, delim, rest);
    case More(p, next) =>
      PartOf(t, p, delim, Show(next, delim));
      OneAnatomy(next, length, delim, PartEnd(i, p, delim));
  }

  lemma HeaderOf(t: string, name: string, rest: string)
    requires t == ShowHeader(name) + rest && NameOk(name)
    ensures DISPOSITION <= t && Split(t[40..], NAME_END) == Cut(name, rest)
  {
    hide FirstAt, Contains, Split;
    assert t == DISPOSITION + (name + NAME_END + rest);
    assert t[40..] == name + NAME_END + rest;
    CutIsSplit(t[40..], NAME_END, Cut(name, rest));
  }

  lemma PartOf(t: string, p: Part, delim: string, rest: string)
    requires t == ShowPart(p, delim) + rest && PartOk(p, delim)
    ensures DISPOSITION <= t && Split(t[40..], NAME_END) == Cut(p.name, p.body + delim + rest)
    ensures Split(p.body + delim + rest, delim) == Cut(p.body, rest)
  {
    hide FirstAt, Contains, Split;
    assert t == ShowHeader(p.name) + (p.body + delim + rest);
    HeaderOf(t, p.name, p.body + delim + rest);
    CutIsSplit(p.body + delim + rest, delim, Cut(p.body, rest));
  }

  // ---------- bodies that the scanner reads to their end ----------

  function ShowParts(parts: seq<Part>, delim: string): string {
    if parts == [] then "" else ShowPart(parts[0], delim) + ShowParts(parts[1..], delim)
  }

  ghost predicate PartsOk(parts: seq<Part>, delim: string) {
    && parts != [] && parts[|parts| - 1].body != ""
    && forall p | p in parts :: PartOk(p, delim)
  }

  /** The anatomy of parts that are closed by `rest`. */
  function Chain(parts: seq<Part>, rest: string): Anatomy
    requires parts != []
  {
    if |parts| == 1 then Last(parts[0], rest) else More(parts[0], Chain(parts[1..], rest))
  }

  lemma {:induction false} ChainFits(parts: seq<Part>, rest: string, length: int, delim: string, i: nat)
    requires PartsOk(parts, delim) && CLOSING <= rest
    requires length == i + |ShowParts(parts, delim)| + 4
    ensures var a := Chain(parts, rest);
      && Show(a, delim) == ShowParts(parts, delim) + rest && Fits(a, length, delim, i)
      && PartsOf(a) == parts && ExitOf(a) == Closed
    decreases |parts|
  {
    hide FirstAt, PartOk;
    var p := parts[0];
    assert p in parts;
    if |parts| == 1 {
      assert ShowParts(parts, delim) == ShowPart(p, delim) && parts == [p];
    } else {
      assert parts[1..][|parts| - 2] == parts[|parts| - 1];
      ChainFits(parts[1..], rest, length, delim, PartEnd(i, p, delim));
      assert ShowPart(parts[1], delim) <= ShowParts(parts[1..], delim);
    }
  }

  lemma {:induction false} ClosedIsChain(a: Anatomy, length: int, delim: string, i: nat) returns (rest: string)
    requires Fits(a, length, delim, i) && ExitOf(a) == Closed
    ensures PartsOk(PartsOf(a), delim) && CLOSING <= rest
    ensures length == i + |ShowParts(PartsOf(a), delim)| + 4
    ensures Show(a, delim) == ShowParts(PartsOf(a), delim) + rest
    decreases a
  {
    hide FirstAt, PartOk;
    match a
    case Last(p, r) =>
      assert ShowParts([p], delim) == ShowPart(p, delim);
      rest := r;
    case More(p, next) =>
      rest := ClosedIsChain(next, length, delim, PartEnd(i, p, delim));
      assert PartsOf(a)[1..] == PartsOf(next);
      assert Show(a, delim) == ShowPart(p, delim) + ShowParts(PartsOf(next), delim) + rest;
  }

  /** After its first |b| + 2 bytes, the announced input is a list of parts and the closing line. */
  ghost predicate Decomposes(s: string, length: int, b: string, parts: seq<Part>) {
    && |b| + 2 <= length <= |s| && PartsOk(parts, Delimiter(b))
    && s[|b| + 2..length] == ShowParts(parts, Delimiter(b)) + CLOSING
  }

  lemma ScanIsFromHeaders(s: string, length: int, b: string)
    requires NulFree(s) && b != "" && length >= 2 * |b| + 54
    ensures Contains(s, "--" + b) ==>
      && |b| + 2 <= |s|
      && Scan(s, length, b) == FromHeaders(s, length, Delimiter(b), |b| + 2, [])
    ensures !Contains(s, "--" + b) ==> Scan(s, length, b) == Outcome([], Failed(PARSER_NO_BOUNDARY))
  {
    hide CStr, Headers, StrStrAt;
    var delim := Delimiter(b);
    assert delim[2..] == "--" + b && s[0..] == s;
    StrStrFinds(s, 0, "--" + b);
    OneTurn(s, length, delim, 0, []);
  }

  // How far the index gets, by the anatomy.

  /** The last value of the index, from just after a delimiter. */
  function Reaches(a: Anatomy, delim: string, i: nat): nat {
    match a
    case NoDisposition(_) => i
    case NoNameEnd(_) => i + 40
    case CutShort(name, _) => BodyStart(i, name)
    case NoDelimiter(name, _) => BodyStart(i, name)
    case Last(p, _) => BodyStart(i, p.name)
    case More(p, next) => Reaches(next, delim, PartEnd(i, p, delim))
  }

  /** The last value of the index, where the scanner has just passed a delimiter. */
  function FromHeadersIndex(s: string, length: int, delim: string, i: nat): (r: nat)
    requires i <= |s| && |delim| > 2
  {
    match Headers(s, i, [])
    case Out(_) => HeadersIndex(s, i)
    case At(j, _) => IndexFrom(s, length, delim, j)
  }

  lemma IndexAfterPart(s: string, length: int, delim: string, i: nat, p: Part, t: string)
    requires NulFree(s) && |delim| > 2 && i <= |s| && s[i..] == ShowPart(p, delim) + t
    requires PartOk(p, delim) && BodyStart(i, p.name) < length
    ensures var end := PartEnd(i, p, delim);
      && end <= |s| && s[end..] == t
      && FromHeadersIndex(s, length, delim, i) ==
         if p.body != "" && length == end + 4 then BodyStart(i, p.name) else FromHeadersIndex(s, length, delim, end)
  {
    hide CStr, Contains, FirstAt, StrStrAt, NulFree, Turn, TurnIndex, Headers, HeadersIndex;
    assert s[i..] == ShowHeader(p.name) + (p.body + (delim + t));
    ReadHeader(s, i, p.name, p.body + (delim + t), []);
    ReadBody(s, length, delim, BodyStart(i, p.name), p, t, []);
    SameIndex(s, PartEnd(i, p, delim), [], [] + [Slice(BodyStart(i, p.name), |p.body|)]);
  }

  lemma SameIndex(s: string, i: nat, calls: seq<Slice>, calls': seq<Slice>)
    requires i <= |s|
    ensures Headers(s, i, calls).At? <==> Headers(s, i, calls').At?
    ensures Headers(s, i, calls).At? ==>
      Headers(s, i, calls).index == Headers(s, i, calls').index == HeadersIndex(s, i)
  {
    hide StrStrAt;
  }

  /** The anatomy decides how far the index gets. */
  lemma {:induction false} IndexDetermined(a: Anatomy, s: string, length: int, delim: string, i: nat)
    requires NulFree(s) && |delim| > 2 && i <= |s| && s[i..] == Show(a, delim) && Fits(a, length, delim, i)
    ensures FromHeadersIndex(s, length, delim, i) == Reaches(a, delim, i)
    decreases a
  {
    hide CStr, Contains, FirstAt, StrStrAt, NulFree, Turn, TurnIndex, Headers, HeadersIndex, PartOk, NameOk,
         ShowPart, ShowHeader;
    match a
    case NoDisposition(rest) => NoHeader(s, i, []);
    case NoNameEnd(rest) => OpenHeader(s, i, rest, []);
    case CutShort(name, rest) => ReadHeader(s, i, name, rest, []);
    case NoDelimiter(name, rest) =>
      ReadHeader(s, i, name, rest, []);
      OpenBody(s, length, delim, BodyStart(i, name), []);
    case Last(p, rest) => IndexAfterPart(s, length, delim, i, p, rest);
    case More(p, next) =>
      IndexAfterPart(s, length, delim, i, p, Show(next, delim));
      IndexDetermined(next, s, length, delim, PartEnd(i, p, delim));
  }

  /** A delimiter, or the headers after it, end past the announced length. */
  predicate Overruns(a: Anatomy, length: int, delim: string, i: nat) {
    match a
    case NoDisposition(_) => length < i
    case NoNameEnd(_) => length < i + 40
    case CutShort(name, _) => length < BodyStart(i, name)
    case NoDelimiter(_, _) => false
    case Last(_, _) => false
    case More(p, next) => Overruns(next, length, delim, PartEnd(i, p, delim))
  }

  lemma {:induction false} OverrunsReaches(a: Anatomy, length: int, delim: string, i: nat)
    requires Fits(a, length, delim, i)
    ensures Overruns(a, length, delim, i) <==> length < Reaches(a, delim, i)
    decreases a
  {
    hide PartOk, NameOk;
    if a.More? {
      OverrunsReaches(a.next, length, delim, PartEnd(i, a.part, delim));
    }
  }

  /**
   * For every input: the index passes the announced length exactly if a delimiter is found and the
   * anatomy after it overruns. So it never does where the scanner reaches the closing line.
   */
  lemma IndexPassesLengthIff(s: string, length: int, b: string)
    requires NulFree(s) && b != "" && length >= 2 * |b| + 54
    ensures LastIndex(s, length, b) > length <==>
      && Contains(s, "--" + b)
      && Overruns(Anatomize(s[|b| + 2..], length, Delimiter(b), |b| + 2), length, Delimiter(b), |b| + 2)
    ensures Scan(s, length, b).exit == Closed ==> LastIndex(s, length, b) <= length
  {
    hide CStr, Contains, Fits, Show, Anatomize, Overruns, Headers, IndexFrom, FromHeadersIndex, Loop, Turn;
    IndexStart(s, length, b);
    ScanIsFromHeaders(s, length, b);
    if Contains(s, "--" + b) {
      var delim, i := Delimiter(b), |b| + 2;
      var a := Anatomize(s[i..], length, delim, i);
      AnatomyFits(s[i..], length, delim, i);
      IndexDetermined(a, s, length, delim, i);
      OverrunsReaches(a, length, delim, i);
      Determined(a, s, length, delim, i, []);
      ClosedStays(a, length, delim, i);
    }
  }

  lemma IndexStart(s: string, length: int, b: string)
    requires NulFree(s) && b != "" && length >= 2 * |b| + 54
    ensures Contains(s, "--" + b) ==>
      |b| + 2 <= |s| && LastIndex(s, length, b) == FromHeadersIndex(s, length, Delimiter(b), |b| + 2)
    ensures !Contains(s, "--" + b) ==> LastIndex(s, length, b) == 0
  {
    hide CStr, Headers, HeadersIndex, StrStrAt;
    var delim := Delimiter(b);
    assert delim[2..] == "--" + b && s[0..] == s;
    StrStrFinds(s, 0, "--" + b);
  }

  lemma {:induction false} ClosedStays(a: Anatomy, length: int, delim: string, i: nat)
    ensures ExitOf(a) == Closed ==> !Overruns(a, length, delim, i)
    decreases a
  {
    if a.More? {
      ClosedStays(a.next, length, delim, PartEnd(i, a.part, delim));
    }
  }

  /**
   * For every size of string: the index stays within the announced length on all strings of that size
   * exactly if the length is not below it. A part name carries it past any smaller length.
   */
  lemma IndexStaysIff(b: string, length: int, n: nat)
    requires ValidBoundary(b) && length >= 2 * |b| + 54
    ensures (forall s | NulFree(s) && |s| == n :: LastIndex(s, length, b) <= length) <==> n <= length
  {
    if n > length {
      var s := LongHeader(b, length, n);
      assert LastIndex(s, length, b) > length;
    }
  }

  lemma LongHeader(b: string, length: int, n: nat) returns (s: string)
    requires ValidBoundary(b) && 2 * |b| + 54 <= length < n
    ensures NulFree(s) && |s| == n && LastIndex(s, length, b) == n
  {
    hide CStr, StrStrAt, Headers, HeadersIndex, ValidBoundary, BorderFree, FirstAt, Contains, NameOk;
    var name, start := seq(n - (|b| + 47), _ => 'a'), "--" + b;
    s := start + ShowHeader(name);
    BoundaryIsBorderFree(b);
    LongName(name);
    assert s[|start|..] == ShowHeader(name) + "";
    ReadHeader(s, |start|, name, "", []);
    assert OccursAt(s, start, 0);
    Occurs(s, start, 0);
    IndexStart(s, length, b);
    assert n > length;
  }

  lemma LongName(name: string)
    requires forall c | c in name :: c == 'a'
    ensures NulFree(ShowHeader(name)) && NameOk(name)
  {
    assert BorderFree(NAME_END);
    forall j: nat ensures !OccursAt(name, NAME_END, j) {
      assert j + 5 <= |name| ==> name[j] in name && name[j] == name[j..j + 5][0];
    }
    BorderFreeAppend(name, NAME_END);
  }

  lemma ChainOf(s: string, length: int, b: string, parts: seq<Part>)
    requires NulFree(s) && b != "" && Decomposes(s, length, b, parts)
    ensures var delim := Delimiter(b);
      && length >= 2 * |b| + 54 && |b| + 2 <= |s|
      && FromHeaders(s, length, delim, |b| + 2, []) == Outcome(Slices(parts, delim, |b| + 2), Closed)
      && parts == PartsOf(Anatomize(s[|b| + 2..], length, delim, |b| + 2))
  {
    hide CStr, FirstAt, PartOk, Contains, Headers, Fits, Anatomize, Split;
    var delim, i, rest := Delimiter(b), |b| + 2, CLOSING + s[length..];
    ChainFits(parts, rest, length, delim, i);
    assert s[i..] == s[i..length] + s[length..];
    Determined(Chain(parts, rest), s, length, delim, i, []);
    OneAnatomy(Chain(parts, rest), length, delim, i);
    assert ShowPart(parts[0], delim) <= ShowParts(parts, delim);
  }

  /** The scanner reaches the closing line exactly on inputs that decompose, in the one way they do. */
  lemma ClosedIffDecomposes(s: string, length: int, b: string)
    requires NulFree(s)
    ensures Scan(s, length, b).exit == Closed <==>
      b != "" && Contains(s, "--" + b) && exists parts :: Decomposes(s, length, b, parts)
    ensures forall parts | b != "" && Contains(s, "--" + b) && Decomposes(s, length, b, parts) ::
      Scan(s, length, b) == Outcome(Slices(parts, Delimiter(b), |b| + 2), Closed)
    ensures forall parts, parts' | b != "" && Decomposes(s, length, b, parts) && Decomposes(s, length, b, parts') ::
      parts == parts'
  {
    hide CStr, FirstAt, PartOk, Contains, Headers, Fits, Anatomize, Split, Loop, Decomposes, PartsOk, Slices;
    forall parts | b != "" && Decomposes(s, length, b, parts)
      ensures length >= 2 * |b| + 54 && |b| + 2 <= |s|
      ensures parts == PartsOf(Anatomize(s[|b| + 2..], length, Delimiter(b), |b| + 2))
      ensures Contains(s, "--" + b) ==>
        Scan(s, length, b) == Outcome(Slices(parts, Delimiter(b), |b| + 2), Closed)
    {
      ChainOf(s, length, b, parts);
      ScanIsFromHeaders(s, length, b);
    }
    if Scan(s, length, b).exit == Closed {
      ScanIsFromHeaders(s, length, b);
      DecomposesIfClosed(s, length, b);
    }
  }

  /** What an input ends in, after its parts. */
  function EndOf(a: Anatomy): Anatomy {
    if a.More? then EndOf(a.next) else a
  }

  lemma {:induction false} ExitByEnd(a: Anatomy)
    ensures ExitOf(a) == ExitOf(EndOf(a)) && !EndOf(a).More?
    ensures ExitOf(a) == Exhausted <==> EndOf(a).CutShort?
    ensures ExitOf(a) == Closed <==> EndOf(a).Last? && CLOSING <= EndOf(a).rest
    decreases a
  {
    hide CLOSING;
    if a.More? {
      ExitByEnd(a.next);
    }
  }

  /**
   * What the caller sees, for every input and callback: a code that is no error exactly if the scanner left
   * through the closing delimiter or because nothing of the announced length was left; and the latter exactly
   * where the headers of a part end at or past that length, with no closing line asked for.
   */
  lemma SucceedsIff(s: string, length: int, b: string, accepts: Callback)
    requires NulFree(s)
    ensures var o := Scan(s, length, b);
      && (Code(o, accepts) >= 0 <==> o.exit == Closed || o.exit == Exhausted)
      && (o.exit == Exhausted <==>
            && b != "" && length >= 2 * |b| + 54 && Contains(s, "--" + b)
            && EndOf(Anatomize(s[|b| + 2..], length, Delimiter(b), |b| + 2)).CutShort?)
  {
    hide CStr, Contains, Fits, Show, Anatomize, Headers, Loop, Turn, FromHeaders, EndOf;
    if b != "" && length >= 2 * |b| + 54 {
      ScanIsFromHeaders(s, length, b);
      if Contains(s, "--" + b) {
        var delim, i := Delimiter(b), |b| + 2;
        var a := Anatomize(s[i..], length, delim, i);
        AnatomyFits(s[i..], length, delim, i);
        Determined(a, s, length, delim, i, []);
        ExitByEnd(a);
        CodeOfExit(a, Scan(s, length, b), accepts);
      }
    }
  }

  lemma {:induction false} CodeOfExit(a: Anatomy, o: Outcome, accepts: Callback)
    requires o.exit == ExitOf(a)
    ensures Code(o, accepts) >= 0 <==> o.exit == Closed || o.exit == Exhausted
    decreases a
  {
    if a.More? {
      CodeOfExit(a.next, o, accepts);
    }
  }

  /** The code of every exit. */
  lemma ExitCodes(s: string, length: int, b: string, accepts: Callback)
    requires NulFree(s)
    ensures var o := Scan(s, length, b);
      var code := Code(o, accepts);
      if length == 0 then code == -32
      else if b == "" then code == -33
      else if length < 2 * |b| + 54 then code == -34
      else if !Contains(s, "--" + b) then code == -35
      else
        match EndOf(Anatomize(s[|b| + 2..], length, Delimiter(b), |b| + 2))
        case NoDisposition(_) => code == -37
        case NoNameEnd(_) => code == -38
        case NoDelimiter(_, _) => code == -35
        case Last(_, rest) => code == if "--\r\n" <= rest then CountAccepted(o.calls, accepts) else -36
        case _ => code == CountAccepted(o.calls, accepts)
  {
    hide CStr, Contains, Fits, Show, Anatomize, Headers, Loop, Turn, FromHeaders, EndOf;
    if length != 0 && b != "" && length >= 2 * |b| + 54 {
      ScanIsFromHeaders(s, length, b);
      CountIsAccepted(Scan(s, length, b).calls, accepts);
      if Contains(s, "--" + b) {
        var delim, i := Delimiter(b), |b| + 2;
        var a := Anatomize(s[i..], length, delim, i);
        AnatomyFits(s[i..], length, delim, i);
        Determined(a, s, length, delim, i, []);
        ExitByEnd(a);
        EndCodes(EndOf(a));
      }
    }
  }

  lemma EndCodes(a: Anatomy)
    requires !a.More?
    ensures ExitOf(a) ==
      match a
      case NoDisposition(_) => Failed(-37)
      case NoNameEnd(_) => Failed(-38)
      case NoDelimiter(_, _) => Failed(-35)
      case Last(_, rest) => if "--\r\n" <= rest then Closed else Failed(-36)
      case _ => Exhausted
  {}

  predicate AcceptedAt(calls: seq<Slice>, accepts: Callback, k: nat)
    requires k < |calls|
  {
    accepts(calls[..k + 1])
  }

  function AcceptedOf(calls: seq<Slice>, accepts: Callback, n: nat): set<nat>
    requires n <= |calls|
  {
    set k: nat | k < n && AcceptedAt(calls, accepts, k)
  }

  /** For how many of the calls made the callback answered `WRD_OK`. */
  function CountAccepted(calls: seq<Slice>, accepts: Callback): nat {
    |AcceptedOf(calls, accepts, |calls|)|
  }

  lemma {:induction false} CountUpTo(calls: seq<Slice>, accepts: Callback, n: nat)
    requires n <= |calls|
    ensures Accepted(calls[..n], accepts) == |AcceptedOf(calls, accepts, n)|
  {
    hide AcceptedOf, AcceptedAt;
    if n == 0 {
      NoneAcceptedOf(calls, accepts);
    } else {
      CountUpTo(calls, accepts, n - 1);
      assert calls[..n][..n - 1] == calls[..n - 1];
      OneMoreOf(calls, accepts, n - 1);
    }
  }

  lemma NoneAcceptedOf(calls: seq<Slice>, accepts: Callback)
    ensures AcceptedOf(calls, accepts, 0) == {}
  {}

  lemma OneMoreOf(calls: seq<Slice>, accepts: Callback, n: nat)
    requires n < |calls|
    ensures |AcceptedOf(calls, accepts, n + 1)| ==
      |AcceptedOf(calls, accepts, n)| + if accepts(calls[..n + 1]) then 1 else 0
  {
    var more: set<nat> := if AcceptedAt(calls, accepts, n) then {n} else {};
    assert AcceptedOf(calls, accepts, n + 1) == AcceptedOf(calls, accepts, n) + more;
    assert n !in AcceptedOf(calls, accepts, n);
  }

  lemma CountIsAccepted(calls: seq<Slice>, accepts: Callback)
    ensures Accepted(calls, accepts) == CountAccepted(calls, accepts)
  {
    hide Accepted, AcceptedOf;
    CountUpTo(calls, accepts, |calls|);
    assert calls[..|calls|] == calls;
  }

  /** Such a success: a form that ends after the headers of a part, with no closing line anywhere. */
  lemma SucceedsUnclosed(b: string, p: Part, name: string, accepts: Callback)
    requires ValidBoundary(b) && Printable(p, b) && p.body != "" && NulFree(name) && !Contains(name, NAME_END)
    ensures var s := "--" + b + ShowPart(p, Delimiter(b)) + ShowHeader(name);
      && (|s| >= 2 * |b| + 54) && NulFree(s)
      && Scan(s, |s|, b) == Outcome([Slice(BodyStart(|b| + 2, p.name), |p.body|)], Exhausted)
      && Code(Scan(s, |s|, b), accepts) >= 0
  {
    hide CStr, FirstAt, Contains, BorderFree, ValidBoundary, ShowHeader, FromHeaders, NulFree;
    var s, delim, i := "--" + b + ShowPart(p, Delimiter(b)) + ShowHeader(name), Delimiter(b), |b| + 2;
    var a := More(p, CutShort(name, ""));
    UnclosedText(b, p, name);
    BoundaryIsBorderFree(b);
    BorderFreeAppend(p.name, NAME_END);
    BorderFreeAppend(p.body, delim);
    BorderFreeAppend(name, NAME_END);
    assert Show(a, delim) == ShowPart(p, delim) + (ShowHeader(name) + "");
    HeaderLength(p.name);
    HeaderLength(name);
    assert Contains(s, "--" + b) by { Occurs(s, "--" + b, 0); }
    ScanIsFromHeaders(s, |s|, b);
    Determined(a, s, |s|, delim, i, []);
    OneSlice(p, [], delim, i, []);
  }

  lemma UnclosedText(b: string, p: Part, name: string)
    requires ValidBoundary(b) && NulFree(p.name) && NulFree(p.body) && NulFree(name)
    ensures var s := "--" + b + ShowPart(p, Delimiter(b)) + ShowHeader(name);
      && NulFree(s) && OccursAt(s, "--" + b, 0)
      && s[|b| + 2..] == ShowPart(p, Delimiter(b)) + (ShowHeader(name) + "")
  {
    hide ValidBoundary, BorderFree, NulFree, ShowPart, ShowHeader, Delimiter;
    var delim, start := Delimiter(b), "--" + b;
    var part, header := ShowPart(p, delim), ShowHeader(name);
    BoundaryIsBorderFree(b);
    PartNulFree(p, delim);
    HeaderNulFree(name);
    NulFreeJoined(start, part);
    NulFreeJoined(start + part, header);
    DashesNulFree(b);
    assert (start + part + header)[..|start|] == start && (start + part + header)[|start|..] == part + (header + "");
  }

  lemma NulFreeJoined(a: string, b: string)
    ensures NulFree(a + b) <==> NulFree(a) && NulFree(b)
  {}

  lemma DashesNulFree(b: string)
    ensures NulFree("--" + b) <==> NulFree(b)
  {}

  lemma HeaderNulFree(name: string)
    ensures NulFree(ShowHeader(name)) <==> NulFree(name)
  {}

  lemma PartNulFree(p: Part, delim: string)
    requires NulFree(p.name) && NulFree(p.body) && NulFree(delim)
    ensures NulFree(ShowPart(p, delim))
  {
    hide NulFree, ShowHeader;
    HeaderNulFree(p.name);
    NulFreeJoined(ShowHeader(p.name), p.body);
    NulFreeJoined(ShowHeader(p.name) + p.body, delim);
  }

  lemma DecomposesIfClosed(s: string, length: int, b: string)
    requires NulFree(s) && |b| + 2 <= |s|
    requires FromHeaders(s, length, Delimiter(b), |b| + 2, []).exit == Closed
    ensures exists parts :: Decomposes(s, length, b, parts)
  {
    hide CStr, FirstAt, PartOk, Contains, Headers, Fits, Anatomize, Split, Loop, Slices;
    var delim, i := Delimiter(b), |b| + 2;
    var a := Anatomize(s[i..], length, delim, i);
    AnatomyFits(s[i..], length, delim, i);
    Determined(a, s, length, delim, i, []);
    var rest := ClosedIsChain(a, length, delim, i);
    assert s[i..length] == s[i..][..length - i] == ShowParts(PartsOf(a), delim) + CLOSING;
    assert Decomposes(s, length, b, PartsOf(a));
  }

  // ---------- the round trip ----------

  /** A form the way a client writes it. */
  function Print(b: string, parts: seq<Part>): string {
    "--" + b + ShowParts(parts, Delimiter(b)) + CLOSING
  }

  /** The same, word by word. */
  function ClientForm(b: string, parts: seq<Part>): string {
    "--" + b + ClientParts(b, parts) + "--\r\n"
  }

  function ClientParts(b: string, parts: seq<Part>): string {
    if parts == [] then ""
    else
      "\r\nContent-Disposition: form-data; name=\"" + parts[0].name + "\"\r\n\r\n" + parts[0].body + "\r\n--" + b
      + ClientParts(b, parts[1..])
  }

  lemma ClientPart(b: string, p: Part)
    ensures ShowPart(p, Delimiter(b)) ==
      "\r\nContent-Disposition: form-data; name=\"" + p.name + "\"\r\n\r\n" + p.body + "\r\n--" + b
  {
    var start := "\r\nContent-Disposition: form-data; name=\"" + p.name + "\"\r\n\r\n" + p.body;
    assert start + ("\r\n--" + b) == start + "\r\n--" + b;
  }

  lemma {:induction false} ClientPartsAre(b: string, parts: seq<Part>)
    ensures ClientParts(b, parts) == ShowParts(parts, Delimiter(b))
  {
    hide ShowPart, Delimiter;
    if parts != [] {
      ClientPart(b, parts[0]);
      ClientPartsAre(b, parts[1..]);
    }
  }

  lemma ClientFormIs(b: string, parts: seq<Part>)
    ensures ClientForm(b, parts) == Print(b, parts)
  {
    hide ClientParts, ShowParts;
    ClientPartsAre(b, parts);
  }

  ghost predicate Printable(p: Part, b: string) {
    && NulFree(p.name) && NulFree(p.body)
    && !Contains(p.name, "\"\r\n\r\n") && !Contains(p.body, "\r\n--" + b)
  }

  lemma BoundaryIsBorderFree(b: string)
    requires ValidBoundary(b)
    ensures BorderFree(Delimiter(b)) && BorderFree(NAME_END) && NulFree(b) && NulFree(Delimiter(b)) && b != ""
  {
    assert IsBoundaryChar('-') && !IsBoundaryChar('\r') && !IsBoundaryChar(NUL);
    assert Delimiter(b)[1..] == "\n--" + b;
  }

  lemma {:induction false} PrintablePartsOk(parts: seq<Part>, b: string)
    requires ValidBoundary(b)
    requires parts != [] && parts[|parts| - 1].body != "" && forall p | p in parts :: Printable(p, b)
    ensures PartsOk(parts, Delimiter(b))
  {
    hide FirstAt, Contains, BorderFree, ValidBoundary;
    BoundaryIsBorderFree(b);
    forall p | p in parts ensures PartOk(p, Delimiter(b)) {
      assert Printable(p, b);
      BorderFreeAppend(p.name, NAME_END);
      BorderFreeAppend(p.body, Delimiter(b));
    }
  }

  lemma {:induction false} ShowPartsNulFree(parts: seq<Part>, delim: string)
    requires NulFree(delim) && forall p | p in parts :: NulFree(p.name) && NulFree(p.body)
    ensures NulFree(ShowParts(parts, delim))
  {
    if parts != [] {
      assert parts[0] in parts;
      Words("");
      assert NulFree(ShowPart(parts[0], delim));
      ShowPartsNulFree(parts[1..], delim);
    }
  }

  function SliceText(s: string, c: Slice): string
    requires c.start + c.length <= |s|
  {
    s[c.start..c.start + c.length]
  }

  function Bodies(parts: seq<Part>): seq<string> {
    if parts == [] then []
    else (if parts[0].body == "" then [] else [parts[0].body]) + Bodies(parts[1..])
  }

  /** The slices hold the given texts; they are disjoint, in order, and `gap` bytes follow each. */
  ghost predicate Holds(s: string, cs: seq<Slice>, texts: seq<string>, from: nat, gap: nat) {
    && |cs| == |texts|
    && (forall k | 0 <= k < |cs| ::
          && from <= cs[k].start && cs[k].start + cs[k].length + gap <= |s|
          && SliceText(s, cs[k]) == texts[k] != "")
    && (forall k | 0 < k < |cs| :: cs[k - 1].start + cs[k - 1].length + gap < cs[k].start)
  }

  lemma HoldsMore(s: string, c: Slice, cs: seq<Slice>, texts: seq<string>, from: nat, gap: nat)
    requires from <= c.start && 0 < c.length && c.start + c.length + gap <= |s|
    requires Holds(s, cs, texts, c.start + c.length + gap + 1, gap)
    ensures Holds(s, [c] + cs, [SliceText(s, c)] + texts, from, gap)
  {
    assert |SliceText(s, c)| == c.length;
  }

  lemma {:induction false} SlicesAreBodies(s: string, parts: seq<Part>, delim: string, i: nat, rest: string)
    requires i <= |s| && s[i..] == ShowParts(parts, delim) + rest
    ensures Holds(s, Slices(parts, delim, i), Bodies(parts), i + 1, |delim|)
    decreases |parts|
  {
    hide SliceText, Holds, OccursAt, ShowPart;
    if parts == [] {
      HoldsNothing(s, i + 1, |delim|);
    } else {
      var p, start, end := parts[0], BodyStart(i, parts[0].name), PartEnd(i, parts[0], delim);
      var later := ShowParts(parts[1..], delim) + rest;
      assert s[i..] == ShowPart(p, delim) + later;
      PartLies(s, i, p, delim, later);
      SlicesAreBodies(s, parts[1..], delim, end, rest);
      var cs, texts := Slices(parts[1..], delim, end), Bodies(parts[1..]);
      if p.body == "" {
        HoldsFrom(s, cs, texts, end + 1, i + 1, |delim|);
        assert [] + cs == cs && [] + texts == texts;
      } else {
        HoldsMore(s, Slice(start, |p.body|), cs, texts, i + 1, |delim|);
      }
    }
  }

  lemma HeaderLength(name: string)
    ensures |ShowHeader(name)| == 45 + |name|
  {}

  lemma PartLies(s: string, i: nat, p: Part, delim: string, t: string)
    requires i <= |s| && s[i..] == ShowPart(p, delim) + t
    ensures var start, end := BodyStart(i, p.name), PartEnd(i, p, delim);
      && i + 45 <= start && end <= |s| && s[end..] == t
      && SliceText(s, Slice(start, |p.body|)) == p.body
  {
    hide ShowHeader;
    HeaderLength(p.name);
    assert s[i..] == ShowHeader(p.name) + (p.body + (delim + t));
    Consume(s, i, ShowHeader(p.name), p.body + (delim + t));
    Consume(s, BodyStart(i, p.name), p.body, delim + t);
    Consume(s, BodyStart(i, p.name) + |p.body|, delim, t);
  }

  lemma HoldsNothing(s: string, from: nat, gap: nat)
    ensures Holds(s, [], [], from, gap)
  {}

  lemma HoldsFrom(s: string, cs: seq<Slice>, texts: seq<string>, from: nat, from': nat, gap: nat)
    requires Holds(s, cs, texts, from, gap) && from' <= from
    ensures Holds(s, cs, texts, from', gap)
  {}

  /** Parsing a printed form hands over exactly its non-empty bodies, in order. */
  lemma RoundTrip(b: string, parts: seq<Part>, accepts: Callback)
    requires ValidBoundary(b)
    requires parts != [] && parts[|parts| - 1].body != "" && forall p | p in parts :: Printable(p, b)
    ensures var s := ClientForm(b, parts);
      var o := Scan(s, |s|, b);
      && NulFree(s) && |s| >= 2 * |b| + 54
      && o.exit == Closed && Code(o, accepts) == CountAccepted(o.calls, accepts)
      && Holds(s, o.calls, Bodies(parts), |b| + 3, |b| + 4)
  {
    hide FirstAt, Contains, BorderFree, ValidBoundary, PartsOk, Loop, Accepted, CountAccepted, Holds, Slices, Bodies,
         ClientForm;
    ClientFormIs(b, parts);
    var s, delim := Print(b, parts), Delimiter(b);
    BoundaryIsBorderFree(b);
    forall p | p in parts ensures NulFree(p.name) && NulFree(p.body) {
      assert Printable(p, b);
    }
    ShowPartsNulFree(parts, delim);
    PrintablePartsOk(parts, b);
    assert s[|b| + 2..|s|] == s[|b| + 2..] == ShowParts(parts, delim) + CLOSING;
    assert OccursAt(s, "--" + b, 0) && Contains(s, "--" + b) by { Occurs(s, "--" + b, 0); }
    ClosedIffDecomposes(s, |s|, b);
    ChainOf(s, |s|, b, parts);
    SlicesAreBodies(s, parts, delim, |b| + 2, CLOSING);
    CountIsAccepted(Scan(s, |s|, b).calls, accepts);
  }

  lemma Occurs(s: string, p: string, i: nat)
    requires OccursAt(s, p, i)
    ensures Contains(s, p)
  {}
}
