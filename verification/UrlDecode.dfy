/**
 * Percent decoding: src/query.c rewrites `%hh` in place, pass after pass, until nothing changes.
 *
 * Rewriting `%hh` at any place and in any order leads to one normal form (`Normal`). `Decode` is
 * what the code computes; it stops early when the string ends with a percent sign, and the lemmas
 * at the end say exactly when that matters.
 */
module UrlDecode {
  import opened CStrings

  // ---------- rewriting %hh, anywhere and in any order ----------

  predicate IsHex(c: char) {
    '0' <= c <= '9' || 'a' <= c <= 'f' || 'A' <= c <= 'F'
  }

  function HexDigit(c: char): (d: nat)
    requires IsHex(c)
    ensures d < 16
  {
    if '0' <= c <= '9' then c as int - '0' as int
    else if 'a' <= c <= 'f' then c as int - 'a' as int + 10
    else c as int - 'A' as int + 10
  }

  function HexChar(h: char, l: char): char
    requires IsHex(h) && IsHex(l)
  {
    (16 * HexDigit(h) + HexDigit(l)) as char
  }

  predicate EscapeAt(s: string, i: nat) {
    i + 2 < |s| && s[i] == '%' && IsHex(s[i + 1]) && IsHex(s[i + 2])
  }

  ghost predicate EscapeFree(s: string) {
    forall i: nat :: !EscapeAt(s, i)
  }

  function Unescape(s: string, i: nat): string
    requires EscapeAt(s, i)
  {
    s[..i] + [HexChar(s[i + 1], s[i + 2])] + s[i + 3..]
  }

  /** The result of rewriting at the given places one after the other, if each of them can be. */
  function Rewrite(s: string, places: seq<nat>): Option<string>
    decreases |places|
  {
    if places == [] then Some(s)
    else if EscapeAt(s, places[0]) then Rewrite(Unescape(s, places[0]), places[1..])
    else None
  }

  /** Put a character in front of a text without escapes, and rewrite what that creates. */
  function Push(c: char, n: string): string
    decreases |n|
  {
    if c == '%' && |n| >= 2 && IsHex(n[0]) && IsHex(n[1]) then Push(HexChar(n[0], n[1]), n[2..])
    else [c] + n
  }

  function Normal(s: string): string {
    if s == "" then "" else Push(s[0], Normal(s[1..]))
  }

  lemma {:induction false} PushEscapeFree(c: char, n: string)
    requires EscapeFree(n)
    ensures EscapeFree(Push(c, n))
    decreases |n|
  {
    if c == '%' && |n| >= 2 && IsHex(n[0]) && IsHex(n[1]) {
      assert forall i: nat :: EscapeAt(n[2..], i) ==> EscapeAt(n, i + 2);
      PushEscapeFree(HexChar(n[0], n[1]), n[2..]);
    } else {
      assert forall i: nat :: i > 0 && EscapeAt([c] + n, i) ==> EscapeAt(n, i - 1);
    }
  }

  lemma {:induction false} NormalEscapeFree(s: string)
    ensures EscapeFree(Normal(s))
  {
    if s != "" {
      NormalEscapeFree(s[1..]);
      PushEscapeFree(s[0], Normal(s[1..]));
    }
  }

  lemma {:induction false} EscapeFreeIsNormal(s: string)
    requires EscapeFree(s)
    ensures Normal(s) == s
  {
    if s != "" {
      assert forall i: nat :: EscapeAt(s[1..], i) ==> EscapeAt(s, i + 1);
      EscapeFreeIsNormal(s[1..]);
      assert !EscapeAt(s, 0);
    }
  }

  /** One rewriting step, wherever it is made, does not change the normal form. */
  lemma {:induction false} UnescapeKeepsNormal(s: string, i: nat)
    requires EscapeAt(s, i)
    ensures Normal(Unescape(s, i)) == Normal(s)
    decreases |s|
  {
    if i == 0 {
      var n := Normal(s[3..]);
      assert s[1..][1..] == s[2..] && s[2..][1..] == s[3..];
      assert Normal(s[2..]) == [s[2]] + n;
      assert Normal(s[1..]) == [s[1], s[2]] + n;
      assert Unescape(s, 0)[1..] == s[3..];
    } else {
      UnescapeKeepsNormal(s[1..], i - 1);
      assert Unescape(s, i)[1..] == Unescape(s[1..], i - 1);
    }
  }

  /** Confluence: whatever the order, rewriting to the end ends in the normal form. */
  lemma {:induction false} EveryOrder(s: string, places: seq<nat>)
    requires Rewrite(s, places).Some?
    ensures Normal(Rewrite(s, places).value) == Normal(s)
    ensures EscapeFree(Rewrite(s, places).value) ==> Rewrite(s, places).value == Normal(s)
    ensures |Rewrite(s, places).value| == |s| - 2 * |places|
    decreases |places|
  {
    if places != [] {
      UnescapeKeepsNormal(s, places[0]);
      EveryOrder(Unescape(s, places[0]), places[1..]);
    } else if EscapeFree(s) {
      EscapeFreeIsNormal(s);
    }
  }

  /** ... and some order does reach it. */
  lemma {:induction false} NormalIsReached(s: string) returns (places: seq<nat>)
    ensures Rewrite(s, places) == Some(Normal(s))
    decreases |s|
  {
    if EscapeFree(s) {
      EscapeFreeIsNormal(s);
      places := [];
    } else {
      var i: nat :| EscapeAt(s, i);
      UnescapeKeepsNormal(s, i);
      var rest := NormalIsReached(Unescape(s, i));
      places := [i] + rest;
      assert places[1..] == rest;
    }
  }

  // ---------- what the code computes ----------

  /** A pass from left to right. A character that a rewrite produces is not looked at again. */
  function Pass(s: string): string {
    if s == "" then ""
    else if EscapeAt(s, 0) then [HexChar(s[1], s[2])] + Pass(s[3..])
    else [s[0]] + Pass(s[1..])
  }

  predicate EndsWithPercent(s: string) {
    s != "" && s[|s| - 1] == '%'
  }

  lemma {:induction false} PassShrinks(s: string)
    ensures |Pass(s)| <= |s|
    ensures |Pass(s)| == |s| ==> Pass(s) == s && EscapeFree(s)
  {
    if s == "" {
    } else if EscapeAt(s, 0) {
      PassShrinks(s[3..]);
    } else {
      PassShrinks(s[1..]);
      assert forall i: nat :: i > 0 && EscapeAt(s, i) ==> EscapeAt(s[1..], i - 1);
    }
  }

  /**
   * The repeated passes. A zero byte that a rewrite produces ends the string, and the pass with it;
   * a pass that gets to a percent sign at the end of the string returns at once.
   */
  function Decode(s: string): string
    requires NulFree(s)
    decreases |s|
  {
    var p := Pass(s);
    PassShrinks(s);
    if NUL in p then Decode(CStr(p))
    else if EndsWithPercent(s) then p
    else if p == s then s
    else Decode(p)
  }

  lemma {:induction false} PassKeepsNormal(s: string)
    ensures Normal(Pass(s)) == Normal(s)
    decreases |s|
  {
    if s == "" {
    } else if EscapeAt(s, 0) {
      PassKeepsNormal(s[3..]);
      UnescapeKeepsNormal(s, 0);
      assert Unescape(s, 0)[1..] == s[3..];
      assert Pass(s)[1..] == Pass(s[3..]);
    } else {
      PassKeepsNormal(s[1..]);
      assert Pass(s)[1..] == Pass(s[1..]);
    }
  }

  // ---------- zero bytes ----------

  lemma {:induction false} PushBeforeNul(c: char, u: string, v: string)
    ensures Push(c, u + [NUL] + v) == Push(c, u) + [NUL] + v
    decreases |u|
  {
    var n := u + [NUL] + v;
    if c == '%' && |n| >= 2 && IsHex(n[0]) && IsHex(n[1]) {
      assert |u| >= 2 && n[2..] == u[2..] + [NUL] + v;
      PushBeforeNul(HexChar(n[0], n[1]), u[2..], v);
    }
  }

  /** Nothing is rewritten across a zero byte. */
  lemma {:induction false} NormalAroundNul(u: string, v: string)
    ensures Normal(u + [NUL] + v) == Normal(u) + [NUL] + Normal(v)
  {
    var s := u + [NUL] + v;
    if u == "" {
      assert s[1..] == v;
    } else {
      assert s[1..] == u[1..] + [NUL] + v;
      NormalAroundNul(u[1..], v);
      PushBeforeNul(u[0], Normal(u[1..]), Normal(v));
    }
  }

  lemma NormalOfCut(p: string)
    requires NUL in p
    ensures exists v :: Normal(p) == Normal(CStr(p)) + [NUL] + v
  {
    var u := CStr(p);
    assert p == u + [NUL] + p[|u| + 1..];
    NormalAroundNul(u, p[|u| + 1..]);
  }

  lemma {:induction false} NormalAfterPercent(s: string)
    requires EndsWithPercent(s)
    ensures EndsWithPercent(Normal(s))
  {
    if |s| > 1 {
      NormalAfterPercent(s[1..]);
      PushKeepsPercent(s[0], Normal(s[1..]));
    }
  }

  lemma {:induction false} PushKeepsPercent(c: char, n: string)
    requires EndsWithPercent(n)
    ensures EndsWithPercent(Push(c, n))
    decreases |n|
  {
    if c == '%' && |n| >= 2 && IsHex(n[0]) && IsHex(n[1]) {
      assert EndsWithPercent(n[2..]);
      PushKeepsPercent(HexChar(n[0], n[1]), n[2..]);
    }
  }

  /** No percent sign stands at the end of the text, or before a zero byte that would end it. */
  ghost predicate NoDanglingPercent(n: string) {
    forall i | 0 <= i < |n| && n[i] == '%' :: i + 1 < |n| && n[i + 1] != NUL
  }

  /** Away from dangling percent signs the code computes the normal form, as a C string. */
  lemma {:induction false} DecodeIsNormal(s: string)
    requires NulFree(s) && NoDanglingPercent(Normal(s))
    ensures Decode(s) == CStr(Normal(s))
    decreases |s|
  {
    hide Normal, Pass, NoDanglingPercent, EscapeFree;
    var p := Pass(s);
    PassShrinks(s);
    PassKeepsNormal(s);
    if NUL in p {
      var u := CStr(p);
      NormalOfCut(p);
      var v :| Normal(p) == Normal(u) + [NUL] + v;
      CutNoDangling(Normal(u), v);
      DecodeIsNormal(u);
      CStrOfCut(Normal(u), v);
    } else if EndsWithPercent(s) {
      NormalAfterPercent(s);
      PercentDangles(Normal(s));
    } else if p == s {
      EscapeFreeIsNormal(s);
      CStrId(s);
    } else {
      DecodeIsNormal(p);
    }
  }

  lemma CutNoDangling(u: string, v: string)
    requires NoDanglingPercent(u + [NUL] + v)
    ensures NoDanglingPercent(u)
  {
    var n := u + [NUL] + v;
    assert n[|u|] == NUL;
    forall i | 0 <= i < |u| && u[i] == '%' ensures i + 1 < |u| && u[i + 1] != NUL {
      assert n[i] == '%';
      assert i + 1 < |u| ==> u[i + 1] == n[i + 1];
    }
  }

  lemma PercentDangles(n: string)
    requires EndsWithPercent(n)
    ensures !NoDanglingPercent(n)
  {}

  lemma CStrOfCut(u: string, v: string)
    ensures CStr(u + [NUL] + v) == CStr(u)
  {
    CStrIs(u + [NUL] + v, |CStr(u)|);
  }

  /**
   * Any nested encoding of a text decodes to that text, provided the text has no escape left in it,
   * no zero byte, and no percent sign at its end. Decoding such a text again changes nothing.
   */
  lemma NestedEncodings(w: string, places: seq<nat>, t: string)
    requires NulFree(w) && Rewrite(w, places) == Some(t)
    requires EscapeFree(t) && NulFree(t) && !EndsWithPercent(t)
    ensures Decode(w) == t && Decode(t) == t
  {
    EveryOrder(w, places);
    EscapeFreeIsNormal(t);
    CStrId(t);
    DecodeIsNormal(w);
    DecodeIsNormal(t);
  }

  // ---------- the hexadecimal digits ----------

  const LOWER_HEX: string := "0123456789abcdef"
  const UPPER_HEX: string := "0123456789ABCDEF"

  function HexTable(upper: bool): string {
    if upper then UPPER_HEX else LOWER_HEX
  }

  /** A digit stands in one of the two alphabets, and counts what its place there says. */
  lemma HexIs(c: char, n: nat, upper: bool)
    requires n < 16
    ensures |HexTable(upper)| == 16
    ensures IsHex(HexTable(upper)[n]) && HexDigit(HexTable(upper)[n]) == n
    ensures IsHex(c) <==> c in LOWER_HEX || c in UPPER_HEX
  {
    if IsHex(c) {
      assert c == LOWER_HEX[HexDigit(c)] || c == UPPER_HEX[HexDigit(c)];
    }
  }

  type byte = c: char | c as int < 256

  /** A byte as `%hh`, each digit in either case. */
  function Escaped(c: byte, first: bool, second: bool): (s: string)
    ensures |s| == 3
  {
    HexIs(c, 0, first);
    HexIs(c, 0, second);
    ['%', HexTable(first)[c as int / 16], HexTable(second)[c as int % 16]]
  }

  lemma EscapedIs(c: byte, first: bool, second: bool, t: string)
    ensures var s := Escaped(c, first, second) + t; EscapeAt(s, 0) && Unescape(s, 0) == [c] + t
  {
    hide HexTable, HexDigit, IsHex;
    var n := c as int;
    HexIs(c, n / 16, first);
    HexIs(c, n % 16, second);
    TwoDigits(n);
    var s := Escaped(c, first, second) + t;
    assert s[1] == HexTable(first)[n / 16] && s[2] == HexTable(second)[n % 16];
    assert s[..0] == "" && s[3..] == t;
  }

  lemma TwoDigits(n: nat)
    ensures 16 * (n / 16) + n % 16 == n
  {}

  /** A text with every byte escaped; `upper` tells the case of every digit. */
  function Encoded(t: seq<byte>, upper: seq<bool>): string
    requires |upper| == 2 * |t|
  {
    if t == [] then "" else Escaped(t[0], upper[0], upper[1]) + Encoded(t[1..], upper[2..])
  }

  lemma {:induction false} PassOfEncoded(t: seq<byte>, upper: seq<bool>)
    requires |upper| == 2 * |t|
    ensures Pass(Encoded(t, upper)) == t && NulFree(Encoded(t, upper)) && !EndsWithPercent(Encoded(t, upper))
    ensures |Encoded(t, upper)| == 3 * |t|
  {
    hide EscapeAt, HexChar, Escaped, EndsWithPercent;
    if t == [] {
      NothingEnds();
    } else {
      var e, rest := Escaped(t[0], upper[0], upper[1]), Encoded(t[1..], upper[2..]);
      EscapedIs(t[0], upper[0], upper[1], rest);
      EscapedClean(t[0], upper[0], upper[1]);
      PassOfEncoded(t[1..], upper[2..]);
      assert (e + rest)[3..] == rest && Unescape(e + rest, 0)[0] == t[0];
      LastOfBoth(e, rest);
    }
  }

  lemma NothingEnds()
    ensures !EndsWithPercent("")
  {}

  lemma LastOfBoth(e: string, rest: string)
    requires e != "" && e[|e| - 1] != '%' && !EndsWithPercent(rest)
    ensures !EndsWithPercent(e + rest)
  {}

  lemma EscapedClean(c: byte, first: bool, second: bool)
    ensures NulFree(Escaped(c, first, second)) && Escaped(c, first, second)[2] != '%'
  {
    HexIs(c, c as int / 16, first);
    HexIs(c, c as int % 16, second);
  }

  /**
   * Escaping every byte of a text and decoding gives the text, as a C string, decoded once more: so it gives
   * the text back exactly if the text has no zero byte and no escape of its own.
   */
  lemma DecodeEncoded(t: seq<byte>, upper: seq<bool>)
    requires |upper| == 2 * |t|
    ensures NulFree(Encoded(t, upper)) && Decode(Encoded(t, upper)) == Decode(CStr(t))
    ensures Decode(Encoded(t, upper)) == t <==> NulFree(t) && EscapeFree(t)
  {
    hide Pass, EscapeFree, Encoded;
    PassOfEncoded(t, upper);
    if NulFree(t) {
      CStrId(t);
    }
    DecodeOnce(CStr(t));
    if NulFree(t) && EscapeFree(t) {
      EscapeFreeIsNormal(t);
    }
  }

  /** Decoding shortens exactly what it changes. */
  lemma {:induction false} DecodeOnce(s: string)
    requires NulFree(s)
    ensures |Decode(s)| <= |s| && (Decode(s) == s <==> EscapeFree(s))
    ensures |Decode(s)| == |s| ==> Decode(s) == s
    decreases |s|
  {
    hide Pass, EscapeFree;
    var p := Pass(s);
    PassShrinks(s);
    PassIsEscapeFree(s);
    if NUL in p {
      DecodeOnce(CStr(p));
    } else if !EndsWithPercent(s) && p != s {
      DecodeOnce(p);
    }
  }

  lemma PassIsEscapeFree(s: string)
    ensures Pass(s) == s <==> EscapeFree(s)
  {
    PassShrinks(s);
    if EscapeFree(s) {
      EscapeFreePass(s);
    }
  }

  lemma {:induction false} EscapeFreePass(s: string)
    requires EscapeFree(s)
    ensures Pass(s) == s
  {
    if s != "" {
      assert !EscapeAt(s, 0);
      assert forall i: nat :: EscapeAt(s[1..], i) ==> EscapeAt(s, i + 1);
      EscapeFreePass(s[1..]);
    }
  }

  // ---------- the early return, exactly ----------

  /** A character and the number of passes it takes to appear. */
  datatype Cell = Cell(c: char, depth: nat)

  function Max(a: nat, b: nat): nat {
    if a < b then b else a
  }

  function Merge(x: Cell, h: Cell, l: Cell): Cell
    requires IsHex(h.c) && IsHex(l.c)
  {
    Cell(HexChar(h.c, l.c), 1 + Max(x.depth, Max(h.depth, l.depth)))
  }

  predicate Merges(x: Cell, n: seq<Cell>) {
    x.c == '%' && |n| >= 2 && IsHex(n[0].c) && IsHex(n[1].c)
  }

  function PushCell(x: Cell, n: seq<Cell>): (r: seq<Cell>)
    ensures r != []
    decreases |n|
  {
    if Merges(x, n) then PushCell(Merge(x, n[0], n[1]), n[2..]) else [x] + n
  }

  function NormalCells(xs: seq<Cell>): seq<Cell> {
    if xs == [] then [] else PushCell(xs[0], NormalCells(xs[1..]))
  }

  function Chars(xs: seq<Cell>): string {
    seq(|xs|, i requires 0 <= i < |xs| => xs[i].c)
  }

  function Cells(s: string): seq<Cell> {
    seq(|s|, i requires 0 <= i < |s| => Cell(s[i], 0))
  }

  /** The normal form, each character with the number of passes that produce it. */
  function Birth(s: string): seq<Cell> {
    NormalCells(Cells(s))
  }

  lemma {:induction false} PushCellChars(x: Cell, n: seq<Cell>)
    ensures Chars(PushCell(x, n)) == Push(x.c, Chars(n))
    decreases |n|
  {
    if Merges(x, n) {
      PushCellChars(Merge(x, n[0], n[1]), n[2..]);
      assert Chars(n)[2..] == Chars(n[2..]);
    } else {
      assert Chars([x] + n) == [x.c] + Chars(n);
    }
  }

  lemma {:induction false} NormalCellsChars(xs: seq<Cell>)
    ensures Chars(NormalCells(xs)) == Normal(Chars(xs))
  {
    if xs != [] {
      NormalCellsChars(xs[1..]);
      PushCellChars(xs[0], NormalCells(xs[1..]));
      assert Chars(xs)[1..] == Chars(xs[1..]);
    }
  }

  /** The first character a pass leaves, marked by depth 1 if the pass produces it, and what follows. */
  function MarkFirst(s: string): (r: (Cell, string))
    requires s != ""
    ensures |r.1| < |s| && r.0.depth <= 1
  {
    if EscapeAt(s, 0) then (Cell(HexChar(s[1], s[2]), 1), s[3..]) else (Cell(s[0], 0), s[1..])
  }

  /** Pass, with the characters it produces marked. */
  function Marked(s: string): seq<Cell>
    decreases |s|
  {
    if s == "" then []
    else
      var (x, rest) := MarkFirst(s);
      [x] + Marked(rest)
  }

  function Lower(xs: seq<Cell>): seq<Cell> {
    seq(|xs|, i requires 0 <= i < |xs| => Cell(xs[i].c, if xs[i].depth == 0 then 0 else xs[i].depth - 1))
  }

  lemma EscapeMerges(s: string)
    requires EscapeAt(s, 0)
    ensures Birth(s) == PushCell(Cell(HexChar(s[1], s[2]), 1), Birth(s[3..]))
  {
    var n := Birth(s[3..]);
    assert Cells(s)[1..] == Cells(s[1..]) && Cells(s[1..])[1..] == Cells(s[2..]) && Cells(s[2..])[1..] == Cells(s[3..]);
    assert NormalCells(Cells(s[2..])) == [Cell(s[2], 0)] + n;
    assert NormalCells(Cells(s[1..])) == [Cell(s[1], 0)] + ([Cell(s[2], 0)] + n);
    assert ([Cell(s[1], 0)] + ([Cell(s[2], 0)] + n))[2..] == n;
  }

  lemma {:induction false} BirthFromMarked(s: string)
    ensures Birth(s) == NormalCells(Marked(s))
    decreases |s|
  {
    if s == "" {
    } else if EscapeAt(s, 0) {
      BirthFromMarked(s[3..]);
      EscapeMerges(s);
      assert Marked(s)[1..] == Marked(s[3..]);
    } else {
      BirthFromMarked(s[1..]);
      assert Cells(s)[1..] == Cells(s[1..]);
      assert Marked(s)[1..] == Marked(s[1..]);
    }
  }

  lemma {:induction false} MergedHeadIsLate(x: Cell, n: seq<Cell>)
    ensures PushCell(x, n)[0].depth >= x.depth
    ensures Merges(x, n) ==> PushCell(x, n)[0].depth > 0
    decreases |n|
  {
    if Merges(x, n) {
      MergedHeadIsLate(Merge(x, n[0], n[1]), n[2..]);
    }
  }

  /** What needs no pass to appear at the front was at the front all along. */
  lemma {:induction false} EarlyHead(xs: seq<Cell>)
    requires NormalCells(xs) != [] && NormalCells(xs)[0].depth == 0
    ensures xs != [] && NormalCells(xs) == [xs[0]] + NormalCells(xs[1..])
  {
    MergedHeadIsLate(xs[0], NormalCells(xs[1..]));
  }

  lemma {:induction false} PushLower(x: Cell, n: seq<Cell>)
    requires Merges(x, n) ==> x.depth + n[0].depth + n[1].depth > 0
    ensures Lower(PushCell(x, n)) == PushCell(Lower([x])[0], Lower(n))
    decreases |n|
  {
    hide Lower, Merge;
    MergeLower(x, n);
    if Merges(x, n) {
      PushLower(Merge(x, n[0], n[1]), n[2..]);
    } else {
      LowerSplits([x], n);
    }
  }

  /** Before a pass or after it, the same cells merge. */
  lemma MergeLower(x: Cell, n: seq<Cell>)
    ensures |Lower([x])| == 1 && (Merges(Lower([x])[0], Lower(n)) <==> Merges(x, n))
    ensures Merges(x, n) ==>
      && |n| >= 2 && IsHex(n[0].c) && IsHex(n[1].c) && Merge(x, n[0], n[1]).depth > 0
      && Lower(n)[2..] == Lower(n[2..])
    ensures Merges(x, n) && x.depth + n[0].depth + n[1].depth > 0 ==>
      |Lower(n)| == |n| && Merge(Lower([x])[0], Lower(n)[0], Lower(n)[1]) == Lower([Merge(x, n[0], n[1])])[0]
  {
    LowerLength(n);
    LowerOne(x);
    if Merges(x, n) {
      LowerOne(Merge(x, n[0], n[1]));
      LowerLength(n[2..]);
    }
  }

  /** Nothing that one pass leaves unmarked can still be merged with its unmarked neighbours. */
  lemma UnmarkedDoNotMerge(s: string)
    requires s != "" && !EscapeAt(s, 0)
    ensures var n := NormalCells(Marked(s[1..]));
      Merges(Cell(s[0], 0), n) ==> n[0].depth + n[1].depth > 0
  {
    var t := s[1..];
    var n := NormalCells(Marked(t));
    if Merges(Cell(s[0], 0), n) && n[0].depth == 0 {
      EarlyHead(Marked(t));
      assert !EscapeAt(t, 0) && n[0].c == t[0] && Marked(t)[1..] == Marked(t[1..]);
      assert NormalCells(Marked(t[1..])) == n[1..];
      if n[1].depth == 0 {
        EarlyHead(Marked(t[1..]));
      }
    }
  }

  /** A pass puts one character in front of what it makes of the rest. */
  lemma PassFirst(s: string)
    requires s != ""
    ensures var (x, rest) := MarkFirst(s);
      && Marked(s) == [x] + Marked(rest)
      && Cells(Pass(s)) == [Cell(x.c, 0)] + Cells(Pass(rest))
  {}

  lemma NormalFirst(x: Cell, xs: seq<Cell>)
    ensures NormalCells([x] + xs) == PushCell(x, NormalCells(xs))
  {
    assert ([x] + xs)[1..] == xs;
  }

  lemma LowerOne(x: Cell)
    ensures Lower([x]) == [Cell(x.c, if x.depth == 0 then 0 else x.depth - 1)]
  {}

  lemma LowerSplits(a: seq<Cell>, b: seq<Cell>)
    ensures Lower(a + b) == Lower(a) + Lower(b)
  {}

  /** A pass is one step of every cell towards its birth. */
  lemma {:induction false} PassLowersMarked(s: string)
    ensures NormalCells(Cells(Pass(s))) == Lower(NormalCells(Marked(s)))
    decreases |s|
  {
    hide MarkFirst, Pass, PushCell, Merges, Lower, Marked;
    if s == "" {
      NothingPassed();
    } else {
      var (x, rest) := MarkFirst(s);
      PassFirst(s);
      PassLowersMarked(rest);
      NormalFirst(x, Marked(rest));
      NormalFirst(Cell(x.c, 0), Cells(Pass(rest)));
      LowerOne(x);
      MayMerge(s);
      PushLower(x, NormalCells(Marked(rest)));
    }
  }

  lemma NothingPassed()
    ensures NormalCells(Cells(Pass(""))) == Lower(NormalCells(Marked("")))
  {}

  lemma MayMerge(s: string)
    requires s != ""
    ensures var (x, rest) := MarkFirst(s);
      var n := NormalCells(Marked(rest));
      Merges(x, n) ==> x.depth + n[0].depth + n[1].depth > 0
  {
    hide NormalCells, Marked;
    if !EscapeAt(s, 0) {
      UnmarkedDoNotMerge(s);
    }
  }

  lemma PassLowers(s: string)
    ensures Birth(Pass(s)) == Lower(Birth(s))
  {
    BirthFromMarked(s);
    PassLowersMarked(s);
  }

  ghost predicate AllBornBy(xs: seq<Cell>, k: nat) {
    forall i | 0 <= i < |xs| :: xs[i].depth <= k
  }

  lemma {:induction false} BornAtOnce(xs: seq<Cell>)
    requires AllBornBy(NormalCells(xs), 0)
    ensures NormalCells(xs) == xs
  {
    if xs != [] {
      EarlyHead(xs);
      assert forall i | 0 <= i < |NormalCells(xs[1..])| :: NormalCells(xs[1..])[i] == NormalCells(xs)[i + 1];
      BornAtOnce(xs[1..]);
    }
  }

  lemma {:induction false} EscapeFreeBirth(t: string)
    ensures EscapeFree(t) <==> AllBornBy(Birth(t), 0)
  {
    NormalCellsChars(Cells(t));
    assert Chars(Cells(t)) == t;
    if AllBornBy(Birth(t), 0) {
      BornAtOnce(Cells(t));
      NormalEscapeFree(t);
    }
    if EscapeFree(t) {
      NothingMerges(t);
    }
  }

  lemma {:induction false} NothingMerges(t: string)
    requires EscapeFree(t)
    ensures Birth(t) == Cells(t)
  {
    if t != "" {
      assert forall i: nat :: EscapeAt(t[1..], i) ==> EscapeAt(t, i + 1);
      NothingMerges(t[1..]);
      assert Cells(t)[1..] == Cells(t[1..]);
      assert !EscapeAt(t, 0);
    }
  }

  function Last(xs: seq<Cell>): Cell
    requires xs != []
  {
    xs[|xs| - 1]
  }

  lemma {:induction false} PushLast(x: Cell, n: seq<Cell>)
    ensures Last(PushCell(x, n)).depth == 0 ==> Last(PushCell(x, n)) == if n == [] then x else Last(n)
    ensures n != [] && Last(n).c == '%' ==> Last(PushCell(x, n)) == Last(n)
    decreases |n|
  {
    if Merges(x, n) {
      PushLast(Merge(x, n[0], n[1]), n[2..]);
    }
  }

  /** The last cell of a normal form is there from the start, or is no percent sign of the input. */
  lemma {:induction false} LastCell(xs: seq<Cell>)
    requires xs != []
    ensures var n := NormalCells(xs);
      && n != [] && (Last(n).depth == 0 ==> Last(n) == Last(xs))
      && (Last(xs).c == '%' ==> Last(n) == Last(xs))
  {
    if |xs| > 1 {
      LastCell(xs[1..]);
      PushLast(xs[0], NormalCells(xs[1..]));
    }
  }

  /** Where a string ends after `k` passes: at the first zero byte that has appeared by then. */
  function Cut(b: seq<Cell>, k: nat): (r: nat)
    ensures r <= |b| && (r < |b| ==> b[r].c == NUL && b[r].depth <= k)
    ensures forall i | 0 <= i < r :: !(b[i].c == NUL && b[i].depth <= k)
  {
    if b == [] || (b[0].c == NUL && b[0].depth <= k) then 0 else 1 + Cut(b[1..], k)
  }

  lemma CutIs(b: seq<Cell>, k: nat, n: nat)
    requires n <= |b| && (n < |b| ==> b[n].c == NUL && b[n].depth <= k)
    requires forall i | 0 <= i < n :: !(b[i].c == NUL && b[i].depth <= k)
    ensures Cut(b, k) == n
  {}

  /**
   * After `k` passes a percent sign ends the string, the next pass does not cut it off, and yet something
   * in front of it takes more than that next pass to appear.
   */
  ghost predicate Early(b: seq<Cell>, k: nat) {
    var n := Cut(b, k);
    && n > 0 && b[n - 1].c == '%' && b[n - 1].depth <= k
    && Cut(b, k + 1) == n && !AllBornBy(b[..n], k + 1)
  }

  /** The guard of the early return, spelled out on the normal form and the passes it takes. */
  ghost predicate ReturnsTooEarly(s: string) {
    exists k: nat :: Early(Birth(s), k)
  }

  /** Without zero bytes: a percent sign ends the normal form, and something takes more than one pass longer. */
  lemma TooEarlyWithoutNul(s: string)
    requires NulFree(Normal(s))
    ensures var b := Birth(s);
      ReturnsTooEarly(s) <==> b != [] && Last(b).c == '%' && !AllBornBy(b, Last(b).depth + 1)
  {
    var b := Birth(s);
    NormalCellsChars(Cells(s));
    assert Chars(Cells(s)) == s;
    assert forall i | 0 <= i < |b| :: b[i].c == Chars(b)[i] && Chars(b)[i] in Normal(s);
    forall k: nat ensures Cut(b, k) == |b| {
      CutIs(b, k, |b|);
    }
    assert b[..|b|] == b;
    if b != [] && Last(b).c == '%' && !AllBornBy(b, Last(b).depth + 1) {
      assert Early(b, Last(b).depth);
    }
  }

  // One pass, on the cells.

  lemma {:induction false} PushCellBeforeNul(x: Cell, u: seq<Cell>, v: seq<Cell>)
    ensures PushCell(x, u + [Cell(NUL, 0)] + v) == PushCell(x, u) + [Cell(NUL, 0)] + v
    decreases |u|
  {
    var n := u + [Cell(NUL, 0)] + v;
    if Merges(x, n) {
      assert |u| >= 2 && n[2..] == u[2..] + [Cell(NUL, 0)] + v;
      PushCellBeforeNul(Merge(x, n[0], n[1]), u[2..], v);
    }
  }

  lemma {:induction false} CellsAroundNul(u: seq<Cell>, v: seq<Cell>)
    ensures NormalCells(u + [Cell(NUL, 0)] + v) == NormalCells(u) + [Cell(NUL, 0)] + NormalCells(v)
  {
    var s := u + [Cell(NUL, 0)] + v;
    if u == [] {
      assert s[1..] == v;
    } else {
      assert s[1..] == u[1..] + [Cell(NUL, 0)] + v;
      CellsAroundNul(u[1..], v);
      PushCellBeforeNul(u[0], NormalCells(u[1..]), NormalCells(v));
    }
  }

  lemma BirthOfCut(p: string)
    requires NUL in p
    ensures var u := Birth(CStr(p)); |u| < |Birth(p)| && u == Birth(p)[..|u|] && Birth(p)[|u|] == Cell(NUL, 0)
  {
    hide Birth;
    var u := CStr(p);
    var v := p[|u| + 1..];
    assert p == u + [NUL] + v;
    BirthAroundNul(u, v);
  }

  lemma BirthAroundNul(u: string, v: string)
    ensures Birth(u + [NUL] + v) == Birth(u) + [Cell(NUL, 0)] + Birth(v)
  {
    hide NormalCells;
    assert Cells(u + [NUL] + v) == Cells(u) + [Cell(NUL, 0)] + Cells(v);
    CellsAroundNul(Cells(u), Cells(v));
  }

  /** What takes no pass is in the input. */
  lemma {:induction false} EarlyCells(xs: seq<Cell>)
    ensures forall x | x in NormalCells(xs) && x.depth == 0 :: x in xs
  {
    if xs != [] {
      EarlyCells(xs[1..]);
      PushEarly(xs[0], NormalCells(xs[1..]));
    }
  }

  lemma {:induction false} PushEarly(x: Cell, n: seq<Cell>)
    ensures forall y | y in PushCell(x, n) && y.depth == 0 :: y == x || y in n
    decreases |n|
  {
    if Merges(x, n) {
      PushEarly(Merge(x, n[0], n[1]), n[2..]);
    }
  }

  lemma NoNulYet(s: string)
    requires NulFree(s)
    ensures forall i | 0 <= i < |Birth(s)| :: !(Birth(s)[i].c == NUL && Birth(s)[i].depth == 0)
    ensures Cut(Birth(s), 0) == |Birth(s)|
  {
    var b := Birth(s);
    EarlyCells(Cells(s));
    forall i | 0 <= i < |b| ensures !(b[i].c == NUL && b[i].depth == 0) {
      assert b[i] in b;
      if b[i].depth == 0 {
        var k :| 0 <= k < |s| && Cells(s)[k] == b[i];
        assert s[k] in s;
      }
    }
    CutIs(b, 0, |b|);
  }

  lemma CutNearer(b: seq<Cell>, m: nat, k: nat)
    requires m <= |b| && (m < |b| ==> b[m].c == NUL && b[m].depth <= 1)
    ensures Cut(Lower(b)[..m], k) == Cut(b, k + 1) <= m
  {
    hide Lower;
    LowerLength(b);
    var c := Lower(b)[..m];
    assert forall i | 0 <= i < m :: c[i].c == b[i].c && (c[i].depth <= k <==> b[i].depth <= k + 1);
    CutIs(b, k + 1, Cut(c, k));
  }

  /** One pass, and the cut after it, bring every early return one pass nearer. */
  lemma EarlyNearer(b: seq<Cell>, m: nat, k: nat)
    requires m <= |b| && (m < |b| ==> b[m].c == NUL && b[m].depth <= 1)
    ensures Early(Lower(b)[..m], k) <==> Early(b, k + 1)
  {
    hide AllBornBy, Cut, Lower;
    LowerLength(b);
    CutNearer(b, m, k);
    CutNearer(b, m, k + 1);
    var c, n := Lower(b)[..m], Cut(b, k + 1);
    LowerLength(b[..n]);
    assert c[..n] == Lower(b[..n]);
    LowerBorn(b[..n], k + 1);
    assert n > 0 ==> c[n - 1].c == b[n - 1].c && (c[n - 1].depth <= k <==> b[n - 1].depth <= k + 1);
  }

  lemma EarlyAfterPass(b: seq<Cell>, c: seq<Cell>, m: nat)
    requires m <= |b| && (m < |b| ==> b[m].c == NUL && b[m].depth <= 1) && c == Lower(b)[..m]
    ensures (exists k: nat :: Early(b, k)) <==> Early(b, 0) || exists k: nat :: Early(c, k)
  {
    hide Early;
    forall k: nat ensures Early(c, k) <==> Early(b, k + 1) {
      EarlyNearer(b, m, k);
    }
    if k: nat :| Early(b, k) {
      assert k > 0 ==> Early(c, k - 1);
    }
    if k: nat :| Early(c, k) {
      assert Early(b, k + 1);
    }
  }

  lemma NeverEarly(b: seq<Cell>, k: nat)
    requires AllBornBy(b, 1)
    ensures !Early(b, k)
  {
    var n := Cut(b, k);
    assert forall i | 0 <= i < n :: b[..n][i] == b[i];
  }

  lemma NormalShorter(p: string)
    ensures !EscapeFree(p) ==> |Normal(p)| < |p|
    ensures EscapeFree(p) ==> Normal(p) == p
  {
    var places := NormalIsReached(p);
    EveryOrder(p, places);
    if EscapeFree(p) {
      EscapeFreeIsNormal(p);
    } else {
      EscapeFreeIsNormalIff(p);
      assert places == [] ==> Rewrite(p, places) == Some(p);
    }
  }

  /** The pass that meets a percent sign at the end returns the right text exactly if nothing is left to do. */
  lemma ReturnedIsRight(p: string, n: string)
    requires NulFree(p) && Normal(p) == n
    ensures p == CStr(n) <==> EscapeFree(p)
  {
    NormalShorter(p);
    if EscapeFree(p) {
      CStrId(p);
    }
  }

  /** On all inputs: the code computes the normal form, as a C string, unless it returns too early. */
  lemma {:induction false} DecodeExact(s: string)
    requires NulFree(s)
    ensures Decode(s) == CStr(Normal(s)) <==> !ReturnsTooEarly(s)
    decreases |s|
  {
    hide Normal, Pass, EscapeFree, NormalCells, Early, AllBornBy, Birth, Lower;
    var p, b := Pass(s), Birth(s);
    PassShrinks(s);
    PassKeepsNormal(s);
    PassLowers(s);
    NoNulYet(s);
    if NUL in p {
      var u := CStr(p);
      NormalOfCut(p);
      var v :| Normal(p) == Normal(u) + [NUL] + v;
      CStrOfCut(Normal(u), v);
      DecodeExact(u);
      CutAfterPass(s);
    } else if EndsWithPercent(s) {
      ReturnedIsRight(p, Normal(s));
      LastPass(s);
    } else if p == s {
      EscapeFreeIsNormal(s);
      CStrId(s);
      NothingEarly(s);
    } else {
      DecodeExact(p);
      NoCutAfterPass(s);
    }
  }

  lemma LowerLength(b: seq<Cell>)
    ensures |Lower(b)| == |b| && forall i | 0 <= i < |b| ::
              Lower(b)[i] == Cell(b[i].c, if b[i].depth == 0 then 0 else b[i].depth - 1)
  {}

  /** A pass that produces a zero byte. */
  lemma CutAfterPass(s: string)
    requires NulFree(s) && NUL in Pass(s)
    ensures ReturnsTooEarly(s) <==> ReturnsTooEarly(CStr(Pass(s)))
  {
    hide Normal, Pass, NormalCells, Birth, Lower, AllBornBy;
    var p, b := Pass(s), Birth(s);
    var c := Birth(CStr(p));
    PassLowers(s);
    NoNulYet(s);
    BirthOfCut(p);
    LowerLength(b);
    EarlyAfterPass(b, c, |c|);
    assert b[|c|].c == NUL;
    assert Cut(b, 1) <= |c|;
  }

  /** A pass that produces none. */
  lemma NoCutAfterPass(s: string)
    requires NulFree(s) && NulFree(Pass(s)) && !EndsWithPercent(s)
    ensures ReturnsTooEarly(s) <==> ReturnsTooEarly(Pass(s))
  {
    hide Normal, Pass, NormalCells, Birth, Lower, AllBornBy;
    var b := Birth(s);
    PassLowers(s);
    NoNulYet(s);
    LowerLength(b);
    assert Lower(b)[..|b|] == Lower(b);
    EarlyAfterPass(b, Lower(b), |b|);
    BirthOf(s);
    EmptyBirth(s);
  }

  lemma EmptyBirth(s: string)
    ensures s == "" ==> Birth(s) == []
  {}

  /** The pass that ends the decoding. */
  lemma LastPass(s: string)
    requires NulFree(s) && NulFree(Pass(s)) && EndsWithPercent(s)
    ensures ReturnsTooEarly(s) <==> !EscapeFree(Pass(s))
  {
    hide Normal, Pass, NormalCells, Birth, EscapeFree;
    var p, b := Pass(s), Birth(s);
    PassLowers(s);
    EscapeFreeBirth(p);
    LowerBorn(b, 0);
    NoNulYet(s);
    BirthOf(s);
    NoNulYet(p);
    forall i | 0 <= i < |b| ensures !(b[i].c == NUL && b[i].depth <= 1) {
      assert Lower(b)[i].c == b[i].c;
    }
    CutIs(b, 1, |b|);
    assert b[..|b|] == b;
    if AllBornBy(b, 1) {
      forall k: nat ensures !Early(b, k) {
        NeverEarly(b, k);
      }
    } else {
      assert Early(b, 0);
    }
  }

  lemma NothingEarly(s: string)
    requires EscapeFree(s)
    ensures !ReturnsTooEarly(s)
  {
    hide EscapeFree, Birth;
    EscapeFreeBirth(s);
    forall k: nat ensures !Early(Birth(s), k) {
      NeverEarly(Birth(s), k);
    }
  }

  const LATE: string := "%2541%"

  lemma LatePass()
    ensures Pass(LATE) == "%41%"
  {
    assert LATE[3..] == "41%" && "41%"[1..] == "1%" && "1%"[1..] == "%";
    assert Pass("1%") == "1" + Pass("%");
    assert Pass("41%") == "4" + Pass("1%");
  }

  lemma LateNormal()
    ensures Normal(LATE) == "A%"
  {
    assert Unescape(LATE, 0) == "%41%" && Unescape("%41%", 0) == "A%";
    UnescapeKeepsNormal(LATE, 0);
    UnescapeKeepsNormal("%41%", 0);
    assert "A%"[1..] == "%";
  }

  /** `%2541%` stands for `A%`, but the code returns `%41%`. */
  lemma TooEarly()
    ensures Decode(LATE) == "%41%" && Normal(LATE) == "A%" && ReturnsTooEarly(LATE)
  {
    hide Pass, Normal, ReturnsTooEarly;
    LatePass();
    LateNormal();
    assert EndsWithPercent(LATE);
    CStrId("A%");
    DecodeExact(LATE);
  }

  const ENCODED_LATE: string := "%252541%25"

  lemma EncodedPass()
    ensures Pass(ENCODED_LATE) == LATE
  {
    var s := ENCODED_LATE;
    assert s[3..] == "2541%25" && "2541%25"[1..] == "541%25" && "541%25"[1..] == "41%25" && "41%25"[1..] == "1%25";
    assert "1%25"[1..] == "%25" && "%25"[3..] == "";
    assert Pass("%25") == "%" + Pass("");
    assert Pass("1%25") == "1" + Pass("%25");
    assert Pass("41%25") == "4" + Pass("1%25");
    assert Pass("541%25") == "5" + Pass("41%25");
    assert Pass("2541%25") == "2" + Pass("541%25");
  }

  /** `%252541%25` stands for `A%` as well and does not end in `%`, but the code returns `%41%`. */
  lemma TooEarlyEncoded()
    ensures Decode(ENCODED_LATE) == "%41%" && Normal(ENCODED_LATE) == "A%" && ReturnsTooEarly(ENCODED_LATE)
  {
    hide Pass, Normal, ReturnsTooEarly;
    EncodedPass();
    TooEarly();
    PassKeepsNormal(ENCODED_LATE);
    assert !EndsWithPercent(ENCODED_LATE);
    CStrId("A%");
    DecodeExact(ENCODED_LATE);
  }

  const NUL_LATE: string := "%2500%"

  lemma NulPass()
    ensures Pass(NUL_LATE) == "%00%"
  {
    assert NUL_LATE[3..] == "00%" && "00%"[1..] == "0%" && "0%"[1..] == "%";
    assert Pass("0%") == "0" + Pass("%");
    assert Pass("00%") == "0" + Pass("0%");
  }

  /** `%2500%` stands for the empty string, but the code returns `%00%`. */
  lemma TooEarlyNul()
    ensures Decode(NUL_LATE) == "%00%" && CStr(Normal(NUL_LATE)) == "" && ReturnsTooEarly(NUL_LATE)
  {
    hide Pass, Normal, ReturnsTooEarly;
    NulPass();
    PassKeepsNormal(NUL_LATE);
    assert Unescape("%00%", 0) == [NUL] + "%";
    UnescapeKeepsNormal("%00%", 0);
    NormalAroundNul("", "%");
    assert "" + [NUL] + "%" == [NUL] + "%" && Normal("") == "" by { EmptyNormal(); }
    assert EndsWithPercent(NUL_LATE);
    DecodeExact(NUL_LATE);
  }

  lemma EmptyNormal()
    ensures Normal("") == ""
  {}

  lemma EscapeFreeIsNormalIff(p: string)
    ensures EscapeFree(p) <==> p == Normal(p)
  {
    NormalEscapeFree(p);
    if EscapeFree(p) {
      EscapeFreeIsNormal(p);
    }
  }

  lemma LowerBorn(b: seq<Cell>, k: nat)
    ensures AllBornBy(Lower(b), k) <==> AllBornBy(b, k + 1)
  {
    assert forall i | 0 <= i < |b| :: Lower(b)[i].depth <= k <==> b[i].depth <= k + 1;
  }

  lemma BirthOf(s: string)
    ensures Chars(Birth(s)) == Normal(s) && |Birth(s)| == |Normal(s)|
    ensures s != "" ==> Birth(s) != []
    ensures s != "" ==> (EndsWithPercent(s) <==> Last(Birth(s)) == Cell('%', 0))
  {
    NormalCellsChars(Cells(s));
    assert Chars(Cells(s)) == s;
    if s != "" {
      LastCell(Cells(s));
    }
  }

  // ---------- the code ----------

  method StrLen(a: array<char>) returns (n: nat)
    requires NUL in a[..]
    ensures n == |CStr(a[..])| < a.Length
  {
    n := 0;
    while a[n] != NUL
      invariant n <= |CStr(a[..])|
      decreases a.Length - n
    {
      assert n < |CStr(a[..])|;
      n := n + 1;
    }
  }

  function Moved(m: string, to: nat, from: nat, count: nat): string
    requires to + count <= |m| && from + count <= |m|
  {
    m[..to] + m[from..from + count] + m[to + count..]
  }

  /** `memmove(&a[to], &a[from], count)` */
  method MemMove(a: array<char>, to: nat, from: nat, count: nat)
    requires to + count <= a.Length && from + count <= a.Length
    modifies a
    ensures a[..] == Moved(old(a[..]), to, from, count)
  {
    forall k | 0 <= k < count {
      a[to + k] := a[from + k];
    }
  }

  /** `strcpy` into a new block. */
  method Copy(mem: string) returns (a: array<char>)
    requires NUL in mem
    ensures fresh(a) && a[..] == CStr(mem) + [NUL]
  {
    var s := CStr(mem);
    a := new char[|s| + 1](i requires 0 <= i <= |s| => if i < |s| then s[i] else NUL);
  }

  ghost predicate SuffixOf(u: string, s: string) {
    |u| <= |s| && s[|s| - |u|..] == u
  }

  /**
   * The inside of a pass at index `i`: `before` was the string when the pass began, `now` is what it
   * is at present. A zero byte written at `i - 1` has cut the string short of `i`.
   */
  ghost predicate InPass(before: string, now: string, i: nat) {
    if i <= |now| then
      && Pass(before) == now[..i] + Pass(now[i..]) && SuffixOf(now[i..], before)
      && (i == |now| ==> !EndsWithPercent(before))
    else
      NUL in Pass(before) && CStr(Pass(before)) == now
  }

  lemma PassStart(s: string)
    ensures InPass(s, s, 0)
  {
    assert s[..0] + Pass(s[0..]) == Pass(s) && s[0..] == s;
  }

  /** The character at `i` is no escape: the pass moves on. */
  lemma PassSkips(before: string, now: string, i: nat)
    requires i < |now| && InPass(before, now, i) && !EscapeAt(now, i)
    requires now[i] == '%' ==> i + 1 < |now|
    ensures InPass(before, now, i + 1)
  {
    assert now[i..][1..] == now[i + 1..] && !EscapeAt(now[i..], 0);
    assert Pass(before) == now[..i] + ([now[i]] + Pass(now[i + 1..]));
    SuffixOfSuffix(now[i..], 1, before);
  }

  /** The escape at `i` is rewritten, perhaps to a zero byte. */
  lemma PassRewrites(before: string, now: string, i: nat)
    requires NulFree(now) && InPass(before, now, i) && EscapeAt(now, i)
    ensures InPass(before, CStr(Unescape(now, i)), i + 1) && |CStr(Unescape(now, i))| < |now|
  {
    var t, x := Unescape(now, i), HexChar(now[i + 1], now[i + 2]);
    assert now[i..][3..] == now[i + 3..] && EscapeAt(now[i..], 0);
    assert Pass(before) == now[..i] + ([x] + Pass(now[i + 3..]));
    if x == NUL {
      CStrIs(t, i);
      assert t[..i] == now[..i] == Pass(before)[..i];
      CStrIs(Pass(before), i);
    } else {
      CStrId(t);
      assert t[i + 1..] == now[i + 3..];
      assert Pass(before) == t[..i + 1] + Pass(t[i + 1..]);
      SuffixOfSuffix(now[i..], 3, before);
    }
  }

  lemma SuffixOfSuffix(u: string, n: nat, s: string)
    requires SuffixOf(u, s) && n <= |u|
    ensures SuffixOf(u[n..], s)
    ensures n == |u| > 0 ==> s != "" && s[|s| - 1] == u[|u| - 1]
  {
    var k := |s| - |u|;
    assert s[k..][n..] == s[k + n..];
  }

  /** The end of a pass: one more turn of `Decode`, and the last one if nothing was rewritten. */
  lemma PassEnds(before: string, now: string, i: nat)
    requires NulFree(before) && NulFree(now) && |now| <= i && InPass(before, now, i)
    ensures now == before ==> Decode(before) == now
    ensures now != before ==> Decode(before) == Decode(now) && |now| < |before|
  {
    PassShrinks(before);
    if i == |now| {
      assert now[..i] + Pass(now[i..]) == now;
    }
  }

  /** A percent sign at the end of the string: the code returns what the pass has made of it so far. */
  lemma PassStops(before: string, now: string, i: nat)
    requires NulFree(before) && NulFree(now) && InPass(before, now, i)
    requires i + 1 == |now| && now[i] == '%'
    ensures Decode(before) == now
  {
    assert now[i..] == "%" && Pass("%") == "%" && now[..i] + "%" == now;
    assert before[|before| - 1..] == "%";
  }

  /** A block and its C string. */
  lemma InBlock(m: string, i: nat)
    requires NUL in m && i <= |CStr(m)|
    ensures |CStr(m)| < |m| && NulFree(CStr(m)) && m[|CStr(m)|] == NUL
    ensures m[i] == NUL <==> i == |CStr(m)|
    ensures i < |CStr(m)| ==> m[i] == CStr(m)[i]
  {
    assert i < |CStr(m)| ==> CStr(m)[i] in CStr(m);
  }

  /** The block after `memmove` and the store of the decoded byte. */
  lemma Rewritten(m: string, i: nat, m': string)
    requires NUL in m && EscapeAt(CStr(m), i)
    requires var len := |CStr(m)|;
      && len < |m|
      && i + 3 <= len && EscapeAt(m, i)
      && m' == Moved(m, i + 1, i + 3, len - (i + 3) + 1)[i := HexChar(m[i + 1], m[i + 2])]
    ensures NUL in m' && CStr(m') == CStr(Unescape(CStr(m), i))
  {
    hide CStr, NulFree;
    var s, junk := CStr(m), m[|CStr(m)| - 1..];
    InBlock(m, |s|);
    InBlock(m, i + 1);
    InBlock(m, i + 2);
    assert m[..|s|] == s && m[i + 3..|s| + 1] == m[i + 3..|s|] + [NUL];
    assert s[i + 3..] == m[i + 3..|s|] && s[..i] == m[..i];
    assert m' == m[..i] + [HexChar(m[i + 1], m[i + 2])] + m[i + 3..|s| + 1] + junk;
    assert m' == Unescape(s, i) + [NUL] + junk;
    CStrOfCut(Unescape(s, i), junk);
  }

  method UrlDecode(input: string) returns (a: array<char>)
    requires NUL in input
    ensures fresh(a) && NUL in a[..] && CStr(a[..]) == Decode(CStr(input))
  {
    hide Decode, Pass, InPass, CStr, NulFree, Moved;
    a := Copy(input);
    InBlock(input, 0);
    CStrOfCut(CStr(input), "");
    CStrId(CStr(input));
    assert CStr(input) + [NUL] + "" == a[..];
    var decoded := false;
    while !decoded
      invariant fresh(a) && NUL in a[..]
      invariant if decoded then CStr(a[..]) == Decode(CStr(input))
                else Decode(CStr(a[..])) == Decode(CStr(input))
      decreases if decoded then 0 else 1 + |CStr(a[..])|
    {
      ghost var before := CStr(a[..]);
      InBlock(a[..], 0);
      PassStart(before);
      decoded := true;
      var i := 0;
      var len := StrLen(a);
      while i < len
        invariant fresh(a) && NUL in a[..]
        invariant len == |CStr(a[..])| <= |before| && InPass(before, CStr(a[..]), i)
        invariant decoded <==> CStr(a[..]) == before
        decreases len - i
      {
        ghost var m := a[..];
        InBlock(m, i);
        InBlock(m, i + 1);
        if a[i] == '%' && a[i + 1] == NUL {
          PassStops(before, CStr(m), i);
          return;
        }
        if a[i] == '%' && IsHex(a[i + 1]) && IsHex(a[i + 2]) {
          InBlock(m, i + 2);
          decoded := false;
          var x := HexChar(a[i + 1], a[i + 2]);
          MemMove(a, i + 1, i + 3, len - (i + 3) + 1);
          a[i] := x;
          Rewritten(m, i, a[..]);
          PassRewrites(before, CStr(m), i);
        } else {
          PassSkips(before, CStr(m), i);
        }
        i := i + 1;
        len := StrLen(a);
      }
      PassEnds(before, CStr(a[..]), i);
    }
  }
}
