/** Decimal numbers: what `printf("%u")` writes and what `strtol(…, 10)` reads. */
module Decimal {
  const LONG_MAX: int := 0x7fff_ffff_ffff_ffff
  const LONG_MIN: int := -0x8000_0000_0000_0000

  function DigitChar(d: nat): (c: char)
    requires d < 10
    ensures IsDigit(c) && DigitValue(c) == d
  {
    ('0' as int + d) as char
  }

  predicate IsDigit(c: char) {
    '0' <= c <= '9'
  }

  function DigitValue(c: char): nat
    requires IsDigit(c)
  {
    c as int - '0' as int
  }

  function Show(n: nat): (s: string)
    ensures s != "" && AllDigits(s)
  {
    if n < 10 then [DigitChar(n)] else Show(n / 10) + [DigitChar(n % 10)]
  }

  predicate AllDigits(s: string) {
    forall c | c in s :: IsDigit(c)
  }

  /** The value of the digits at the start of a text, `acc` having been read already. */
  function ReadDigits(s: string, acc: nat): nat {
    if s == "" || !IsDigit(s[0]) then acc else ReadDigits(s[1..], 10 * acc + DigitValue(s[0]))
  }

  predicate IsSpace(c: char) {
    c == ' ' || '\t' <= c <= '\r'
  }

  function SkipSpaces(s: string): string {
    if s != "" && IsSpace(s[0]) then SkipSpaces(s[1..]) else s
  }

  function Clamp(n: int): int {
    if n < LONG_MIN then LONG_MIN else if LONG_MAX < n then LONG_MAX else n
  }

  /** `strtol(s, NULL, 10)`: no digits give 0, too many give the nearest `long`. */
  function Strtol(s: string): int {
    var t := SkipSpaces(s);
    if t != "" && t[0] == '-' then Clamp(0 - ReadDigits(t[1..], 0))
    else if t != "" && t[0] == '+' then Clamp(ReadDigits(t[1..], 0))
    else Clamp(ReadDigits(t, 0))
  }

  /** `sscanf(s, "%d", …)` finds a number. */
  predicate StartsNumber(s: string) {
    var t := SkipSpaces(s);
    var u := if t != "" && (t[0] == '-' || t[0] == '+') then t[1..] else t;
    u != "" && IsDigit(u[0])
  }

  lemma {:induction false} ReadDigitsAppend(s: string, d: char, t: string, acc: nat)
    requires AllDigits(s) && IsDigit(d) && (t == "" || !IsDigit(t[0]))
    ensures ReadDigits(s + [d] + t, acc) == 10 * ReadDigits(s + t, acc) + DigitValue(d)
  {
    if s == "" {
      assert (s + [d] + t)[1..] == t && s + t == t;
    } else {
      assert (s + [d] + t)[1..] == s[1..] + [d] + t && (s + t)[1..] == s[1..] + t;
      ReadDigitsAppend(s[1..], d, t, 10 * acc + DigitValue(s[0]));
    }
  }

  /** Reading back a printed number, up to the first character that is no digit. */
  lemma {:induction false} ReadShow(n: nat, t: string)
    requires t == "" || !IsDigit(t[0])
    ensures ReadDigits(Show(n) + t, 0) == n
  {
    if n < 10 {
      assert (Show(n) + t)[1..] == t;
    } else {
      ReadDigitsAppend(Show(n / 10), DigitChar(n % 10), t, 0);
      ReadShow(n / 10, t);
      assert Show(n) + t == Show(n / 10) + [DigitChar(n % 10)] + t;
    }
  }

  lemma StrtolShow(n: nat, t: string)
    requires n <= LONG_MAX && (t == "" || !IsDigit(t[0]))
    ensures Strtol(Show(n) + t) == n
  {
    ReadShow(n, t);
    assert Show(n)[0] in Show(n) && (Show(n) + t)[0] == Show(n)[0];
  }

  lemma ShowStartsNumber(n: nat)
    ensures StartsNumber(Show(n))
  {
    assert Show(n)[0] in Show(n);
  }

  /** Digits are read up to the first character that is none. */
  lemma {:induction false} ReadDigitsStop(s: string, t: string, acc: nat)
    requires t != "" && !IsDigit(t[0])
    ensures ReadDigits(s + t, acc) == ReadDigits(s, acc)
  {
    if s == "" {
      assert s + t == t;
    } else {
      assert (s + t)[1..] == s[1..] + t;
      if IsDigit(s[0]) {
        ReadDigitsStop(s[1..], t, 10 * acc + DigitValue(s[0]));
      }
    }
  }

  // ---------- the notation ----------

  const DIGITS: string := "0123456789"

  lemma DigitsAre(c: char)
    ensures |DIGITS| == 10 && (IsDigit(c) <==> c in DIGITS)
    ensures forall d: nat | d < 10 :: DigitChar(d) == DIGITS[d] && DigitValue(DIGITS[d]) == d
  {
    if IsDigit(c) {
      assert c == DIGITS[c as int - '0' as int];
    }
  }

  /** Printing is decimal notation: a digit, or the digits of the tens and then the last one. */
  lemma ShowIsDecimal(n: nat, d: nat)
    requires d < 10
    ensures Show(10 * n + d) == (if n == 0 then "" else Show(n)) + [DIGITS[d]]
  {
    DigitsAre('0');
    assert (10 * n + d) / 10 == n && (10 * n + d) % 10 == d;
  }

  predicate Blank(c: char) {
    c as int in [9, 10, 11, 12, 13, 32]
  }

  lemma {:induction false} SkipBlanks(blanks: string, t: string)
    requires (forall c | c in blanks :: Blank(c)) && (t == "" || !Blank(t[0]))
    ensures SkipSpaces(blanks + t) == t
  {
    if blanks == "" {
      assert blanks + t == t;
    } else {
      assert blanks[0] in blanks && (blanks + t)[1..] == blanks[1..] + t;
      SkipBlanks(blanks[1..], t);
    }
  }

  /** Blanks, a sign or none, and a number of any size: the value, or the nearest 64-bit one. */
  lemma StrtolIs(blanks: string, sign: string, n: nat, t: string)
    requires (forall c | c in blanks :: Blank(c)) && (t == "" || t[0] !in DIGITS) && sign in ["", "+", "-"]
    ensures var v: int := if sign == "-" then 0 - n else n;
      Strtol(blanks + (sign + Show(n) + t)) ==
      if v < -9223372036854775808 then -9223372036854775808
      else if v > 9223372036854775807 then 9223372036854775807 else v
    ensures StartsNumber(blanks + (sign + Show(n) + t))
  {
    hide Show, ReadDigits;
    var digits := Show(n) + t;
    assert digits[0] == Show(n)[0] && Show(n)[0] in Show(n);
    DigitsAre(digits[0]);
    if t != "" {
      DigitsAre(t[0]);
    }
    ReadShow(n, t);
    var all := sign + digits;
    assert sign + Show(n) + t == all;
    assert sign == "" ==> all == digits;
    assert sign != "" ==> all[0] == sign[0] && all[1..] == digits;
    SkipBlanks(blanks, all);
  }

  /** A text that holds no digit after its blanks and sign is zero. */
  lemma StrtolOfNone(blanks: string, sign: string, t: string)
    requires (forall c | c in blanks :: Blank(c)) && sign in ["", "+", "-"]
    requires t == "" || (t[0] !in DIGITS && (sign == "" ==> !Blank(t[0]) && t[0] != '+' && t[0] != '-'))
    ensures Strtol(blanks + (sign + t)) == 0 && !StartsNumber(blanks + (sign + t))
  {
    if t != "" {
      DigitsAre(t[0]);
    }
    SkipBlanks(blanks, sign + t);
    assert sign != "" ==> (sign + t)[1..] == t;
    assert sign == "" ==> sign + t == t;
  }
}
