/**
 * The output side of src/http.c and src/net.c: two buffers that handlers append to, and the flush
 * that announces the length of the body and sends both.
 *
 * A receiver that only knows line breaks and Content-Length can split what is sent on a connection
 * back into the responses (`ReceivesAll`).
 */
module Response {
  import opened CStrings
  import Decimal
  import Http

  /** Header lines, each with its line break, and a body. */
  datatype Response = Response(head: string, body: string)

  function LengthLine(length: nat): string {
    "Content-Length: " + Decimal.Show(length)
  }

  /** What is sent for a response. */
  function Frame(r: Response): string {
    r.head + LengthLine(|r.body|) + Http.BLANK + r.body
  }

  function Stream(rs: seq<Response>): string {
    if rs == [] then "" else Frame(rs[0]) + Stream(rs[1..])
  }

  // ---------- the receiver ----------

  /** The length a header line announces, if it is a Content-Length. */
  function LengthIn(line: string): Option<int> {
    match Split(line, ":")
    case Uncut => None
    case Cut(name, value) => if Http.SameName(name, "Content-Length") then Some(Decimal.Strtol(value)) else None
  }

  function AnnouncedLength(lines: seq<string>): Option<int> {
    if lines == [] then None
    else if LengthIn(lines[0]).Some? then LengthIn(lines[0])
    else AnnouncedLength(lines[1..])
  }

  /** Take one response off the front of a stream: its head, its body, and what follows. */
  function Receive(s: string): Option<(Response, string)> {
    match Split(s, "\r\n\r\n")
    case Uncut => None
    case Cut(head, rest) =>
      match AnnouncedLength(Http.Lines(head))
      case None => None
      case Some(n) =>
        if 0 <= n <= |rest| then Some((Response(head, rest[..n]), rest[n..])) else None
  }

  function ReceiveAll(s: string): Option<seq<Response>>
    decreases |s|
  {
    if s == "" then Some([])
    else
      match Receive(s)
      case None => None
      case Some((r, rest)) =>
        SplitIsCut(s, Http.BLANK);
        match ReceiveAll(rest)
        case None => None
        case Some(rs) => Some([r] + rs)
  }

  // ---------- what a receiver makes of a stream ----------

  /** The head is made of these lines, none of which announces a length. */
  ghost predicate HasLines(r: Response, lines: seq<string>) {
    && r.head == Http.ShowLines(lines) && Http.AreHeaderLines(lines)
    && forall line | line in lines :: LengthIn(line) == None
  }

  ghost predicate Proper(r: Response) {
    |r.body| <= Decimal.LONG_MAX && exists lines :: HasLines(r, lines)
  }

  function Received(r: Response): Response {
    Response(r.head + LengthLine(|r.body|), r.body)
  }

  function AllReceived(rs: seq<Response>): seq<Response> {
    seq(|rs|, i requires 0 <= i < |rs| => Received(rs[i]))
  }

  lemma LengthLineIs(n: nat)
    requires n <= Decimal.LONG_MAX
    ensures LengthIn(LengthLine(n)) == Some(n)
    ensures LengthLine(n) != "" && Http.IsLine(LengthLine(n))
  {
    hide Decimal.Show, Decimal.Strtol, Split;
    var digits := Decimal.Show(n);
    assert LengthLine(n) == "Content-Length" + [':'] + (" " + digits);
    Http.SplitChar("Content-Length", ':', " " + digits);
    SpaceBefore(n);
    forall j: nat ensures !OccursAt(LengthLine(n), CRLF, j) {
      NoCarriageReturn(LengthLine(n), j);
    }
  }

  lemma SpaceBefore(n: nat)
    requires n <= Decimal.LONG_MAX
    ensures Decimal.Strtol(" " + Decimal.Show(n)) == n
    ensures '\r' !in LengthLine(n)
  {
    var digits := Decimal.Show(n);
    Decimal.StrtolShow(n, "");
    assert digits + "" == digits && (" " + digits)[1..] == digits;
    assert forall c | c in digits :: Decimal.IsDigit(c);
  }

  lemma NoCarriageReturn(s: string, j: nat)
    requires '\r' !in s
    ensures !OccursAt(s, CRLF, j)
  {
    assert j + 2 <= |s| ==> s[j..j + 2][0] == s[j];
  }

  /** After a line break, non-empty lines hold no empty line before the one that ends them. */
  lemma {:induction false} BlankEndsLines(lines: seq<string>)
    requires Http.AreHeaderLines(lines)
    ensures var t := Http.ShowLines(lines) + CRLF; FirstAt(CRLF + t, Http.BLANK, |t| - 2)
  {
    if lines == [] {
      assert CRLF + (Http.ShowLines(lines) + CRLF) == Http.BLANK;
    } else {
      var line, t' := lines[0], Http.ShowLines(lines[1..]) + CRLF;
      assert line in lines;
      BlankEndsLines(lines[1..]);
      LineBeforeBlank(line, t');
      assert Http.ShowLines(lines) + CRLF == line + CRLF + t';
    }
  }

  lemma LineBeforeBlank(line: string, t': string)
    requires line != "" && Http.IsLine(line) && |t'| >= 2 && FirstAt(CRLF + t', Http.BLANK, |t'| - 2)
    ensures var t := line + CRLF + t'; FirstAt(CRLF + t, Http.BLANK, |t| - 2)
  {
    var t, k := line + CRLF + t', |line| + 2;
    var w := CRLF + t;
    assert w[k..] == CRLF + t';
    assert w[|t| - 2..|t| + 2] == w[k..][|t'| - 2..|t'| + 2];
    forall j: nat | j < |t| - 2 ensures !OccursAt(w, Http.BLANK, j) {
      if j < k {
        NoBlankInLine(line, t', j);
      } else {
        assert !OccursAt(w[k..], Http.BLANK, j - k);
        assert j + 4 <= |w| ==> w[k..][j - k..j - k + 4] == w[j..j + 4];
      }
    }
  }

  lemma NoBreakAt(line: string, k: nat)
    requires Http.IsLine(line)
    ensures k + 2 <= |line| ==> !(line[k] == '\r' && line[k + 1] == '\n')
  {
    assert !OccursAt(line, CRLF, k);
    assert k + 2 <= |line| ==> line[k..k + 2] == [line[k], line[k + 1]];
  }

  lemma BlankAt(w: string, j: nat)
    ensures OccursAt(w, Http.BLANK, j) ==>
      j + 4 <= |w| && w[j] == '\r' && w[j + 1] == '\n' && w[j + 2] == '\r' && w[j + 3] == '\n'
  {
    assert j + 4 <= |w| ==> w[j..j + 4] == [w[j], w[j + 1], w[j + 2], w[j + 3]];
  }

  lemma NoBlankInLine(line: string, t': string, j: nat)
    requires line != "" && Http.IsLine(line) && j < |line| + 2
    ensures !OccursAt(CRLF + (line + CRLF + t'), Http.BLANK, j)
  {
    var w, k := CRLF + (line + CRLF + t'), if j < 2 then 0 else j - 2;
    assert forall i | 0 <= i < |line| :: w[i + 2] == line[i];
    assert w[|line| + 2] == '\r';
    NoBreakAt(line, k);
    BlankAt(w, j);
  }

  lemma {:induction false} AnnouncedLast(lines: seq<string>, last: string)
    requires (forall line | line in lines :: LengthIn(line) == None) && LengthIn(last).Some?
    ensures AnnouncedLength(lines + [last]) == LengthIn(last)
  {
    if lines != [] {
      assert lines[0] in lines && (lines + [last])[1..] == lines[1..] + [last];
      AnnouncedLast(lines[1..], last);
    }
  }

  /** The receiver takes exactly one response off a stream. */
  lemma ReceivesOne(r: Response, rest: string)
    requires Proper(r)
    ensures Receive(Frame(r) + rest) == Some((Received(r), rest))
  {
    hide FirstAt, Contains, Split, LengthIn, Http.Lines, AnnouncedLength, LengthLine, Http.AreHeaderLines;
    var lines :| HasLines(r, lines);
    var last, head := LengthLine(|r.body|), Received(r).head;
    LengthLineIs(|r.body|);
    HeadEndsAtBlank(lines, last);
    var s := Frame(r) + rest;
    assert s == head + Http.BLANK + (r.body + rest);
    CutIsSplit(s, Http.BLANK, Cut(head, r.body + rest));
    Http.LinesOfHead(lines, last);
    AnnouncedLast(lines, last);
    assert (r.body + rest)[..|r.body|] == r.body && (r.body + rest)[|r.body|..] == rest;
  }

  lemma HeadEndsAtBlank(lines: seq<string>, last: string)
    requires Http.AreHeaderLines(lines) && last != "" && Http.IsLine(last)
    ensures var head := Http.ShowLines(lines) + last; FirstAt(head + Http.BLANK, Http.BLANK, |head|)
  {
    hide FirstAt, Contains;
    var all, head := lines + [last], Http.ShowLines(lines) + last;
    ShowLinesAppend(lines, last);
    BlankEndsLines(all);
    var t := Http.ShowLines(all) + CRLF;
    assert t == head + Http.BLANK && (CRLF + t)[2..] == t;
    FirstAtSuffix(CRLF + t, Http.BLANK, |t| - 2, 2);
  }

  lemma {:induction false} ShowLinesAppend(lines: seq<string>, last: string)
    ensures Http.ShowLines(lines + [last]) == Http.ShowLines(lines) + last + CRLF
  {
    if lines == [] {
      assert Http.ShowLines([last]) == last + CRLF + "";
    } else {
      ShowLinesAppend(lines[1..], last);
      assert (lines + [last])[1..] == lines[1..] + [last];
    }
  }

  /** The responses sent on a connection come out of its stream one by one, in order. */
  lemma {:induction false} ReceivesAll(rs: seq<Response>)
    requires forall r | r in rs :: Proper(r)
    ensures ReceiveAll(Stream(rs)) == Some(AllReceived(rs))
  {
    hide Proper, Receive, Split, LengthLine;
    if rs != [] {
      assert rs[0] in rs && Frame(rs[0]) != "";
      ReceivesOne(rs[0], Stream(rs[1..]));
      ReceivesAll(rs[1..]);
      assert AllReceived(rs) == [Received(rs[0])] + AllReceived(rs[1..]);
    }
  }

  /** Hence a stream comes from one sequence of responses only. */
  lemma OneStream(rs: seq<Response>, rs': seq<Response>)
    requires (forall r | r in rs :: Proper(r)) && (forall r | r in rs' :: Proper(r))
    requires Stream(rs) == Stream(rs')
    ensures rs == rs'
  {
    ReceivesAll(rs);
    ReceivesAll(rs');
    assert AllReceived(rs) == AllReceived(rs');
    forall i | 0 <= i < |rs| ensures rs[i] == rs'[i] {
      assert Received(rs[i]) == AllReceived(rs)[i] == AllReceived(rs')[i] == Received(rs'[i]);
      assert rs[i].body == rs'[i].body;
      assert Received(rs[i]).head[..|rs[i].head|] == rs[i].head;
      assert Received(rs'[i]).head[..|rs'[i].head|] == rs'[i].head;
    }
  }

  // ---------- the code ----------

  class Buffer {
    const data: array<char>
    var position: nat

    /** Whatever lies beyond the position is zero. */
    ghost predicate Valid()
      reads this, data
    {
      position <= data.Length && forall k | position <= k < data.Length :: data[k] == NUL
    }

    ghost function Contents(): string
      requires position <= data.Length
      reads this, data
    {
      data[..position]
    }

    ghost predicate Empty()
      reads this, data
    {
      Valid() && position == 0
    }

    constructor (size: nat)
      ensures Empty() && fresh(data) && data.Length == size
    {
      data := new char[size](_ => NUL);
      position := 0;
    }

    /** `puts`: as much of the text as leaves the last byte alone; the position moves by all of it. */
    method Puts(str: string)
      requires Valid() && position < data.Length
      modifies this, data
      ensures position == old(position) + |str|
      ensures var n := if |str| < data.Length - old(position) - 1 then |str| else data.Length - old(position) - 1;
        data[..] == old(data[..position]) + str[..n] + old(data[position + n..])
    {
      var bufferSize := data.Length - position - 1;
      var length := if |str| < bufferSize then |str| else bufferSize;
      forall k | 0 <= k < length {
        data[position + k] := str[k];
      }
      position := position + |str|;
    }

    /** `puts`, and `printf` of a text that has been formatted, where the text fits: append. */
    method Append(str: string)
      requires Valid() && position + |str| + 1 < data.Length
      modifies this, data
      ensures Valid() && Contents() == old(Contents()) + str
    {
      ghost var before, size, all := Contents(), position, data[..];
      Puts(str);
      assert data[..] == before + str[..|str|] + all[size + |str|..];
      forall k | position <= k < data.Length ensures data[k] == NUL {
        assert data[..][k] == all[k];
      }
      assert data[..position] == data[..][..position] == before + str;
    }

    /** `wrd_net_send`: hand over what was appended, and clear; `accepted` is what the system reports. */
    method Send(accepted: int) returns (sent: string, ok: bool)
      requires Valid()
      modifies this, data
      ensures sent == old(Contents()) && Empty()
      ensures ok <==> old(position) == 0 || accepted > 0
    {
      sent, ok := "", true;
      if position != 0 {
        sent := data[..position];
        ok := accepted > 0;
        forall k | 0 <= k < data.Length {
          data[k] := NUL;
        }
        position := 0;
      }
    }
  }

  /** `wrd_http_flush`, where both sends are complete. */
  method Flush(headers: Buffer, body: Buffer) returns (sent: string)
    requires headers.Valid() && body.Valid() && headers != body && headers.data != body.data
    requires headers.position + |LengthLine(body.position)| + 5 < headers.data.Length
    modifies headers, headers.data, body, body.data
    ensures sent == old(Frame(Response(headers.Contents(), body.Contents())))
    ensures headers.Empty() && body.Empty()
  {
    headers.Append(LengthLine(body.position) + Http.BLANK);
    var first, ok := headers.Send(headers.position);
    var second;
    second, ok := body.Send(body.position);
    sent := first + second;
  }
}
