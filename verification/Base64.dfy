/** The Base64 encoder and decoder of src/auth.c. */
module Base64 {
  import opened CStrings
  import Decimal

  type byte = c: char | c as int < 256

  /** The alphabet of RFC 4648, section 4. */
  function Letter(n: nat): (c: char)
    requires n < 64
    ensures InAlphabet(c) && c != '='
  {
    if n < 26 then ('A' as int + n) as char
    else if n < 52 then ('a' as int + n - 26) as char
    else if n < 62 then ('0' as int + n - 52) as char
    else if n == 62 then '+'
    else '/'
  }

  predicate InAlphabet(c: char) {
    'A' <= c <= 'Z' || 'a' <= c <= 'z' || '0' <= c <= '9' || c == '+' || c == '/' || c == '='
  }

  /** `wrd_base64_decode_char`: padding reads as zero, anything outside the alphabet as 255. */
  function DecodeChar(c: char): (n: nat)
    ensures n == 255 <==> !InAlphabet(c)
    ensures n < 64 || n == 255
  {
    if 'A' <= c <= 'Z' then c as int - 'A' as int
    else if 'a' <= c <= 'z' then c as int - 'a' as int + 26
    else if '0' <= c <= '9' then c as int - '0' as int + 52
    else if c == '+' then 62
    else if c == '/' then 63
    else if c == '=' then 0
    else 255
  }

  /** Letters and six-bit numbers correspond one to one. */
  lemma LetterIsInverse(n: nat, c: char)
    requires n < 64 && InAlphabet(c) && c != '='
    ensures c == Letter(n) <==> DecodeChar(c) == n
  {}

  // ---------- groups of three bytes and four characters ----------

  /** The 24 bits of up to three bytes; a missing byte counts as zero. */
  function Triple(s: seq<byte>): (n: nat)
    requires 0 < |s| <= 3
    ensures n < 0x1000000
  {
    s[0] as int * 0x10000 + (if |s| > 1 then s[1] as int * 0x100 else 0) + (if |s| > 2 then s[2] as int else 0)
  }

  function Sextet(n: nat, k: nat): (r: nat)
    requires k < 4
    ensures r < 64
  {
    (if k == 0 then n / 0x40000 else if k == 1 then n / 0x1000 else if k == 2 then n / 0x40 else n) % 64
  }

  /** Four characters for up to three bytes. */
  function EncodeGroup(s: seq<byte>): (t: string)
    requires 0 < |s| <= 3
    ensures |t| == 4
  {
    var n := Triple(s);
    [Letter(Sextet(n, 0)), Letter(Sextet(n, 1)),
     if |s| > 1 then Letter(Sextet(n, 2)) else '=', if |s| > 2 then Letter(Sextet(n, 3)) else '=']
  }

  function Encode(s: seq<byte>): string {
    if s == [] then ""
    else if |s| <= 3 then EncodeGroup(s)
    else EncodeGroup(s[..3]) + Encode(s[3..])
  }

  lemma GroupInAlphabet(s: seq<byte>)
    requires 0 < |s| <= 3
    ensures forall c | c in EncodeGroup(s) :: InAlphabet(c)
  {}

  function Combine(a: nat, b: nat, c: nat, d: nat): nat {
    a * 0x40000 + b * 0x1000 + c * 0x40 + d
  }

  function Octet(n: nat, k: nat): byte
    requires k < 3
  {
    ((if k == 0 then n / 0x10000 else if k == 1 then n / 0x100 else n) % 256) as char
  }

  function DecodeGroup(s: string): (t: seq<byte>)
    requires |s| == 4
    ensures |t| == 3
  {
    var n := Combine(DecodeChar(s[0]), DecodeChar(s[1]), DecodeChar(s[2]), DecodeChar(s[3]));
    [Octet(n, 0), Octet(n, 1), Octet(n, 2)]
  }

  predicate Decodable(s: string) {
    |s| % 4 == 0 && forall c | c in s :: InAlphabet(c)
  }

  /** The bytes the decoder writes before the terminator. */
  function Decode(s: string): seq<byte> {
    if |s| < 4 then [] else DecodeGroup(s[..4]) + Decode(s[4..])
  }

  // ---------- decoding what was encoded ----------

  function Zeros(n: nat): seq<byte> {
    seq(n, _ => NUL)
  }

  /** The padding that brings a length up to a multiple of three. */
  function Padding(n: nat): nat {
    (3 - n % 3) % 3
  }

  lemma SextetsCombine(n: nat)
    requires n < 0x1000000
    ensures Combine(Sextet(n, 0), Sextet(n, 1), Sextet(n, 2), Sextet(n, 3)) == n
  {
    assert n / 0x1000 == n / 0x40000 * 64 + Sextet(n, 1);
    assert n / 0x40 == n / 0x1000 * 64 + Sextet(n, 2);
    assert n == n / 0x40 * 64 + Sextet(n, 3);
  }

  lemma TripleBytes(s: seq<byte>)
    requires 0 < |s| <= 3
    ensures var n := Triple(s); [Octet(n, 0), Octet(n, 1), Octet(n, 2)] == s + Zeros(3 - |s|)
  {
    var n := Triple(s);
    var b1, b2 := if |s| > 1 then s[1] as int else 0, if |s| > 2 then s[2] as int else 0;
    assert n == (s[0] as int * 256 + b1) * 256 + b2;
    assert n / 0x100 == s[0] as int * 256 + b1 && n % 256 == b2;
    assert n / 0x10000 == s[0] as int && n / 0x100 % 256 == b1;
  }

  lemma LowZeros(n: nat, k: nat)
    requires n == 64 * k
    ensures n % 64 == 0 && n / 64 == k
  {}

  lemma MissingSextets(s: seq<byte>)
    requires 0 < |s| <= 3
    ensures |s| < 3 ==> Sextet(Triple(s), 3) == 0
    ensures |s| < 2 ==> Sextet(Triple(s), 2) == 0
  {
    if |s| == 1 {
      LowZeros(Triple(s), s[0] as int * 0x400);
      LowZeros(s[0] as int * 0x400, s[0] as int * 0x10);
    } else if |s| == 2 {
      LowZeros(Triple(s), s[0] as int * 0x400 + s[1] as int * 4);
    }
  }

  lemma GroupRoundTrip(s: seq<byte>)
    requires 0 < |s| <= 3
    ensures DecodeGroup(EncodeGroup(s)) == s + Zeros(3 - |s|)
  {
    hide Sextet, Triple, Combine, Octet;
    var n, t := Triple(s), EncodeGroup(s);
    MissingSextets(s);
    assert forall k: nat | k < 4 :: DecodeChar(Letter(Sextet(n, k))) == Sextet(n, k);
    SextetsCombine(n);
    TripleBytes(s);
  }

  /** Decoding an encoded text gives it back, and a zero byte for each character of padding. */
  lemma {:induction false} DecodeEncode(s: seq<byte>)
    ensures |Encode(s)| == 4 * ((|s| + 2) / 3) && Decodable(Encode(s))
    ensures Decode(Encode(s)) == s + Zeros(Padding(|s|))
  {
    hide EncodeGroup, DecodeGroup, InAlphabet, Decode, Decodable, Padding;
    if s == [] {
      NothingDecoded();
    } else if |s| <= 3 {
      GroupRoundTrip(s);
      GroupInAlphabet(s);
      NothingDecoded();
      DecodeFirst(EncodeGroup(s), "");
      assert EncodeGroup(s) + "" == EncodeGroup(s);
      assert Padding(|s|) == 3 - |s| by { PaddingIs(|s|); }
    } else {
      GroupRoundTrip(s[..3]);
      GroupInAlphabet(s[..3]);
      DecodeEncode(s[3..]);
      DecodeFirst(EncodeGroup(s[..3]), Encode(s[3..]));
      PaddingIs(|s|);
      assert s == s[..3] + s[3..] && Zeros(0) == [];
    }
  }

  lemma NothingDecoded()
    ensures Decode("") == [] && Decodable("") && Padding(0) == 0
  {}

  lemma PaddingIs(n: nat)
    ensures 0 < n <= 3 ==> Padding(n) == 3 - n
    ensures n >= 3 ==> Padding(n) == Padding(n - 3)
  {}

  /** Decoding goes group by group. */
  lemma DecodeFirst(t: string, u: string)
    requires |t| == 4 && Decodable(u) && forall c | c in t :: InAlphabet(c)
    ensures Decodable(t + u) && Decode(t + u) == DecodeGroup(t) + Decode(u)
  {
    hide InAlphabet;
    assert (t + u)[..4] == t && (t + u)[4..] == u;
  }

  /** As C strings, a text and the decoding of its encoding are the same. */
  lemma CStringRoundTrip(s: seq<byte>)
    requires NulFree(s)
    ensures CStr(Decode(Encode(s)) + [NUL]) == s
  {
    DecodeEncode(s);
    var t := Decode(Encode(s)) + [NUL];
    assert t[..|s|] == s;
    CStrIs(t, |s|);
  }

  // ---------- the alphabet and the bits ----------

  const ALPHABET: string := A_TO_M + N_TO_Z + (SMALL_A_TO_M + SMALL_N_TO_Z) + (Decimal.DIGITS + "+/")

  /** A letter counts what its place in the alphabet says. */
  lemma AlphabetIs(n: nat)
    requires n < 64
    ensures |ALPHABET| == 64 && Letter(n) == ALPHABET[n] && DecodeChar(ALPHABET[n]) == n
  {
    hide A_TO_M, N_TO_Z, SMALL_A_TO_M, SMALL_N_TO_Z, Decimal.DIGITS;
    LettersAre(n);
    LettersAre(if n < 13 then n else n - 13);
    LettersAre(if n < 26 then 0 else if n < 39 then n - 26 else if n < 52 then n - 39 else 0);
    Decimal.DigitsAre('0');
  }

  lemma AlphabetHas(c: char)
    ensures InAlphabet(c) <==> c in ALPHABET || c == '='
  {
    hide Letter, DecodeChar, InAlphabet, ALPHABET;
    if InAlphabet(c) && c != '=' {
      LetterOf(c);
      AlphabetIs(DecodeChar(c));
    }
    if c in ALPHABET {
      AlphabetIs(0);
      var n :| 0 <= n < |ALPHABET| && ALPHABET[n] == c;
      AlphabetIs(n);
    } else if c == '=' {
      Padded();
    }
  }

  lemma LetterOf(c: char)
    requires InAlphabet(c) && c != '='
    ensures DecodeChar(c) < 64 && Letter(DecodeChar(c)) == c
  {}

  lemma Padded()
    ensures InAlphabet('=')
  {}

  /** Where a letter stands in the alphabet. */
  ghost predicate Stands(c: char, n: nat) {
    n < |ALPHABET| && ALPHABET[n] == c
  }

  /** The letters of a group: their places are the digits, to the base 64, of the number its bytes write. */
  ghost predicate Spells(t: string, g: seq<byte>, a: nat, b: nat, c: nat, d: nat)
    requires 0 < |g| <= 3
  {
    && |t| == 4 && Stands(t[0], a) && Stands(t[1], b)
    && match |g|
       case 1 => t[2..] == "==" && 64 * a + b == 16 * (g[0] as int)
       case 2 => t[3] == '=' && Stands(t[2], c) && 4096 * a + 64 * b + c == 1024 * (g[0] as int) + 4 * (g[1] as int)
       case _ =>
         && Stands(t[2], c) && Stands(t[3], d)
         && 262144 * a + 4096 * b + 64 * c + d == 65536 * (g[0] as int) + 256 * (g[1] as int) + (g[2] as int)
  }

  lemma GroupSpells(g: seq<byte>) returns (a: nat, b: nat, c: nat, d: nat)
    requires 0 < |g| <= 3
    ensures Spells(EncodeGroup(g), g, a, b, c, d)
  {
    hide Letter, Sextet, ALPHABET;
    var n := Triple(g);
    a, b, c, d := Sextet(n, 0), Sextet(n, 1), Sextet(n, 2), Sextet(n, 3);
    SextetsCombine(n);
    MissingSextets(g);
    AlphabetIs(a);
    AlphabetIs(b);
    AlphabetIs(c);
    AlphabetIs(d);
  }

  /** Every group of the encoding spells its three, or fewer last, bytes. */
  lemma {:induction false} EncodeSpells(s: seq<byte>, k: nat) returns (a: nat, b: nat, c: nat, d: nat)
    requires 3 * k < |s|
    ensures 4 * k + 4 <= |Encode(s)|
    ensures var g := if 3 * k + 3 < |s| then s[3 * k..3 * k + 3] else s[3 * k..];
      Spells(Encode(s)[4 * k..4 * k + 4], g, a, b, c, d)
  {
    hide EncodeGroup, Spells;
    if k == 0 {
      var g := if 3 < |s| then s[..3] else s;
      a, b, c, d := GroupSpells(g);
      assert s[0..] == s && s[0..if 3 < |s| then 3 else |s|] == g;
      assert Encode(s)[0..4] == EncodeGroup(g);
    } else {
      a, b, c, d := EncodeSpells(s[3..], k - 1);
      assert s[3..][3 * (k - 1)..] == s[3 * k..];
      assert 3 * k + 3 < |s| ==> s[3..][3 * (k - 1)..3 * (k - 1) + 3] == s[3 * k..3 * k + 3];
      assert Encode(s)[4..] == Encode(s[3..]);
      assert Encode(s)[4 * k..4 * k + 4] == Encode(s[3..])[4 * (k - 1)..4 * (k - 1) + 4];
    }
  }

  // ---------- encoding what was decoded ----------

  /** How many characters of padding end a text. */
  function PadCount(t: string): nat {
    if |t| < 4 || t[|t| - 1] != '=' then 0 else if t[|t| - 2] != '=' then 1 else 2
  }

  /** A group without padding, or with padding over zero bits only. */
  predicate CanonicalGroup(g: string) {
    && |g| == 4 && (forall c | c in g :: InAlphabet(c))
    && g[0] != '=' && g[1] != '='
    && (g[2] == '=' ==> g[3] == '=' && DecodeChar(g[1]) % 16 == 0)
    && (g[2] != '=' && g[3] == '=' ==> DecodeChar(g[2]) % 4 == 0)
  }

  predicate Canonical(t: string)
    requires |t| % 4 == 0
  {
    t == "" || (CanonicalGroup(t[..4]) && (|t| > 4 ==> t[3] != '=' && Canonical(t[4..])))
  }

  lemma SextetsOf(a: nat, b: nat, c: nat, d: nat)
    requires a < 64 && b < 64 && c < 64 && d < 64
    ensures var n := Combine(a, b, c, d);
      n < 0x1000000 && Sextet(n, 0) == a && Sextet(n, 1) == b && Sextet(n, 2) == c && Sextet(n, 3) == d
  {
    var n := Combine(a, b, c, d);
    assert n == ((a * 64 + b) * 64 + c) * 64 + d;
    assert n / 0x40 == (a * 64 + b) * 64 + c;
    assert n / 0x1000 == a * 64 + b;
    assert n / 0x40000 == a;
  }

  lemma TripleOf(n: nat)
    requires n < 0x1000000
    ensures Triple([Octet(n, 0), Octet(n, 1), Octet(n, 2)]) == n
    ensures n % 0x100 == 0 ==> Triple([Octet(n, 0), Octet(n, 1)]) == n && Octet(n, 2) == NUL
    ensures n % 0x10000 == 0 ==> Triple([Octet(n, 0)]) == n && Octet(n, 1) == NUL == Octet(n, 2)
  {
    assert n / 0x100 == n / 0x10000 * 256 + n / 0x100 % 256;
    assert n == n / 0x100 * 256 + n % 256;
  }

  lemma PaddedBits(a: nat, b: nat, c: nat, d: nat)
    requires a < 64 && b < 64 && c < 64 && d < 64
    ensures d == 0 && c % 4 == 0 ==> Combine(a, b, c, d) % 0x100 == 0
    ensures d == 0 && c == 0 && b % 16 == 0 ==> Combine(a, b, c, d) % 0x10000 == 0
  {
    var p, q := c / 4, b / 16;
    assert d == 0 && c == 4 * p ==> Combine(a, b, c, d) == 0x100 * (a * 0x400 + b * 0x10 + p);
    assert d == 0 && c == 0 && b == 16 * q ==> Combine(a, b, c, d) == 0x10000 * (a * 4 + q);
    Multiples(a * 0x400 + b * 0x10 + p, a * 4 + q);
  }

  lemma Multiples(j: nat, k: nat)
    ensures 0x100 * j % 0x100 == 0 && 0x10000 * k % 0x10000 == 0
  {}

  lemma CanonicalGroupRoundTrip(g: string)
    requires CanonicalGroup(g)
    ensures var d, k := DecodeGroup(g), PadCount(g);
      EncodeGroup(d[..3 - k]) == g && d == d[..3 - k] + Zeros(k)
  {
    hide Sextet, Triple, Combine, Octet;
    var a, b, c, e := DecodeChar(g[0]), DecodeChar(g[1]), DecodeChar(g[2]), DecodeChar(g[3]);
    var n := Combine(a, b, c, e);
    assert g[0] in g && g[1] in g && g[2] in g && g[3] in g;
    SextetsOf(a, b, c, e);
    TripleOf(n);
    PaddedBits(a, b, c, e);
    var d := DecodeGroup(g);
    assert d[..3] == d && d[..2] == [Octet(n, 0), Octet(n, 1)] && d[..1] == [Octet(n, 0)];
    assert Zeros(1) == [NUL] && Zeros(2) == [NUL, NUL] && Zeros(0) == [];
    assert forall i | 0 <= i < 4 && g[i] != '=' :: Letter(DecodeChar(g[i])) == g[i];
  }

  /** What `EncodeDecode` says of a text. */
  predicate Recoded(t: string) {
    var d, k := Decode(t), PadCount(t);
    k <= |d| && Encode(d[..|d| - k]) == t && d == d[..|d| - k] + Zeros(k)
  }

  lemma CanonicalParts(t: string)
    requires |t| % 4 == 0 && Canonical(t) && t != ""
    ensures |t| >= 4 && CanonicalGroup(t[..4]) && (|t| > 4 ==> t[3] != '=' && Canonical(t[4..]))
  {
    hide CanonicalGroup;
  }

  lemma LastGroup(g: string)
    requires CanonicalGroup(g)
    ensures Recoded(g)
  {
    hide EncodeGroup, DecodeGroup, Encode, Decode, PadCount, Zeros;
    CanonicalGroupRoundTrip(g);
    OneGroup(g);
  }

  lemma Glue(g: string, rest: string)
    requires CanonicalGroup(g) && g[3] != '=' && |rest| >= 4 && |rest| % 4 == 0 && Recoded(rest)
    ensures Recoded(g + rest)
  {
    hide EncodeGroup, DecodeGroup, Encode, Decode, PadCount, Zeros;
    CanonicalGroupRoundTrip(g);
    PayloadNotEmpty(rest);
    FirstGroup(g, rest);
    var x, e, k := DecodeGroup(g), Decode(rest), PadCount(rest);
    assert x + (e[..|e| - k] + Zeros(k)) == x + e[..|e| - k] + Zeros(k);
  }

  /** Encoding the payload of a canonical text gives the text back. */
  lemma {:induction false} EncodeDecode(t: string)
    requires |t| % 4 == 0 && Canonical(t)
    ensures var d, k := Decode(t), PadCount(t);
      k <= |d| && Encode(d[..|d| - k]) == t && d == d[..|d| - k] + Zeros(k)
  {
    hide Canonical, CanonicalGroup, Decode, Encode, PadCount, Zeros;
    if t == "" {
      NothingEncoded();
    } else {
      CanonicalParts(t);
      var g, rest := t[..4], t[4..];
      assert t == g + rest;
      if rest == "" {
        assert t == g;
        LastGroup(g);
      } else {
        EncodeDecode(rest);
        Glue(g, rest);
      }
    }
  }

  lemma NothingEncoded()
    ensures Decode("") == [] && Encode([]) == "" && PadCount("") == 0 && Zeros(0) == []
  {}

  lemma OneGroup(g: string)
    requires |g| == 4
    ensures Decode(g) == DecodeGroup(g) && PadCount(g) <= 2
    ensures var k := PadCount(g); Encode(DecodeGroup(g)[..3 - k]) == EncodeGroup(DecodeGroup(g)[..3 - k])
  {
    hide DecodeGroup, EncodeGroup;
    assert g[..4] == g && g[4..] == "";
  }

  /** The first of several groups, decoded and encoded. */
  lemma FirstGroup(g: string, rest: string)
    requires |g| == 4 && g[3] != '=' && |rest| >= 4 && PadCount(rest) < |Decode(rest)|
    ensures PadCount(g) == 0 && PadCount(g + rest) == PadCount(rest)
    ensures Decode(g + rest) == DecodeGroup(g) + Decode(rest)
    ensures var k, d := PadCount(rest), Decode(rest);
      && Decode(g + rest)[..3 + |d| - k] == DecodeGroup(g) + d[..|d| - k]
      && Encode(DecodeGroup(g) + d[..|d| - k]) == EncodeGroup(DecodeGroup(g)[..3]) + Encode(d[..|d| - k])
  {
    hide DecodeGroup, EncodeGroup;
    var k, d, x := PadCount(rest), Decode(rest), DecodeGroup(g);
    assert (g + rest)[..4] == g && (g + rest)[4..] == rest;
    assert (x + d)[..3 + |d| - k] == x + d[..|d| - k];
    assert x[..3] == x && (x + d[..|d| - k])[..3] == x && (x + d[..|d| - k])[3..] == d[..|d| - k];
  }

  lemma PayloadNotEmpty(t: string)
    requires |t| % 4 == 0 && t != ""
    ensures PadCount(t) < |Decode(t)|
  {}

  /** ... also as C strings, if the payload has no zero byte. */
  lemma CStringEncodeDecode(t: string)
    requires |t| % 4 == 0 && Canonical(t)
    requires NulFree(Decode(t)[..|Decode(t)| - PadCount(t)])
    ensures var s: seq<byte> := CStr(Decode(t) + [NUL]); Encode(s) == t
  {
    hide Encode, Decode, Canonical, PadCount;
    EncodeDecode(t);
    var d, k := Decode(t), PadCount(t);
    var m := d + [NUL];
    assert m[..|d| - k] == d[..|d| - k];
    assert k > 0 ==> d[|d| - k] == Zeros(k)[0];
    CStrIs(m, |d| - k);
  }

  // ---------- the code ----------

  /** The next group of up to three bytes. */
  function Group(s: seq<byte>, x: nat): seq<byte>
    requires x < |s|
  {
    if x + 3 < |s| then s[x..x + 3] else s[x..]
  }

  function Equals(n: nat): string {
    seq(n, _ => '=')
  }

  /** What remains to be written at `x`: groups, or the padding of the last one. */
  function ToWrite(s: seq<byte>, x: nat): string {
    if x < |s| then Encode(s[x..]) else Equals(x - |s|)
  }

  lemma EncodeStep(s: seq<byte>, x: nat)
    requires x < |s|
    ensures var g := Group(s, x); 0 < |g| <= 3 && ToWrite(s, x) == EncodeGroup(g)[..|g| + 1] + ToWrite(s, x + 3)
  {
    hide EncodeGroup;
    var t, g := s[x..], Group(s, x);
    PaddedGroup(g);
    if x + 3 < |s| {
      assert t[..3] == g && t[3..] == s[x + 3..];
      assert EncodeGroup(g)[..4] == EncodeGroup(g);
    } else {
      assert t == g && Encode(t) == EncodeGroup(g);
    }
  }

  lemma PaddedGroup(g: seq<byte>)
    requires 0 < |g| <= 3
    ensures EncodeGroup(g) == EncodeGroup(g)[..|g| + 1] + Equals(3 - |g|)
  {}

  /** The body of the encoding loop: the characters of one group, without padding. */
  method WriteGroup(input: seq<byte>, x: nat, res: array<char>, at: nat) returns (resultIndex: nat)
    requires x < |input| && at + |Group(input, x)| + 1 <= res.Length
    modifies res
    ensures var g := Group(input, x);
      && resultIndex == at + |g| + 1 && 0 < |g| <= 3
      && res[..resultIndex] == old(res[..at]) + EncodeGroup(g)[..|g| + 1]
  {
    hide EncodeGroup, Letter, Sextet;
    var inputLength := |input|;
    var n := input[x] as int * 0x10000;
    if x + 1 < inputLength {
      n := n + input[x + 1] as int * 0x100;
    }
    if x + 2 < inputLength {
      n := n + input[x + 2] as int;
    }
    GroupBits(input, x);
    resultIndex := at;
    res[resultIndex] := Letter(Sextet(n, 0));
    resultIndex := resultIndex + 1;
    res[resultIndex] := Letter(Sextet(n, 1));
    resultIndex := resultIndex + 1;
    assert res[..resultIndex] == old(res[..at]) + [Letter(Sextet(n, 0)), Letter(Sextet(n, 1))];
    if x + 1 < inputLength {
      res[resultIndex] := Letter(Sextet(n, 2));
      resultIndex := resultIndex + 1;
    }
    if x + 2 < inputLength {
      res[resultIndex] := Letter(Sextet(n, 3));
      resultIndex := resultIndex + 1;
    }
  }

  method Base64Encode(input: seq<byte>) returns (res: array<char>)
    ensures fresh(res) && res[..] == Encode(input) + [NUL]
  {
    hide EncodeGroup, Encode, Group, ToWrite;
    var inputLength := |input|;
    var retLength := 4 * ((inputLength + 2) / 3);
    res := new char[retLength + 1];
    var resultIndex := 0;
    var padCount := inputLength % 3;
    var x := 0;
    ghost var groups := 0;
    WriteAll(input);
    while x < inputLength
      invariant x == 3 * groups && x <= inputLength + 2
      invariant resultIndex + |ToWrite(input, x)| == retLength && 0 <= resultIndex <= retLength
      invariant res[..resultIndex] + ToWrite(input, x) == Encode(input)
      decreases inputLength - x
    {
      EncodeStep(input, x);
      resultIndex := WriteGroup(input, x, res, resultIndex);
      x, groups := x + 3, groups + 1;
    }
    WritePadding(input, x);
    PaddingCount(inputLength, x, groups);
    if padCount > 0 {
      resultIndex := WriteEquals(res, resultIndex, padCount);
    }
    res[resultIndex] := NUL;
  }

  /** The padding loop. */
  method WriteEquals(res: array<char>, at: nat, count: nat) returns (resultIndex: nat)
    requires count <= 3 && at + (3 - count) <= res.Length
    modifies res
    ensures resultIndex == at + (3 - count) && res[..resultIndex] == old(res[..at]) + Equals(3 - count)
  {
    resultIndex := at;
    var padCount := count;
    while padCount < 3
      invariant count <= padCount <= 3 && resultIndex == at + (padCount - count)
      invariant res[..resultIndex] == old(res[..at]) + Equals(padCount - count)
    {
      res[resultIndex] := '=';
      resultIndex := resultIndex + 1;
      padCount := padCount + 1;
      assert Equals(padCount - count) == Equals(padCount - 1 - count) + "=";
    }
  }

  lemma PaddingCount(length: nat, x: nat, groups: nat)
    requires x == 3 * groups && length <= x <= length + 2
    ensures if length % 3 == 0 then x == length else x - length == 3 - length % 3
  {
    assert length == 3 * (groups - 1) + (3 - (x - length));
  }

  lemma WritePadding(s: seq<byte>, x: nat)
    requires |s| <= x
    ensures ToWrite(s, x) == Equals(x - |s|)
  {}

  lemma WriteAll(s: seq<byte>)
    ensures ToWrite(s, 0) == Encode(s) && |Encode(s)| == 4 * ((|s| + 2) / 3)
  {
    DecodeEncode(s);
    assert s[0..] == s && Equals(0) == "";
  }

  /** The first characters of a group, from the bits that the code shifts together. */
  lemma GroupBits(s: seq<byte>, x: nat)
    requires x < |s|
    ensures var g := Group(s, x);
      var n := s[x] as int * 0x10000 + (if x + 1 < |s| then s[x + 1] as int * 0x100 else 0)
               + (if x + 2 < |s| then s[x + 2] as int else 0);
      && 0 < |g| <= 3 && n >= 0
      && EncodeGroup(g)[..|g| + 1] ==
         ([Letter(Sextet(n, 0)), Letter(Sextet(n, 1))]
          + (if x + 1 < |s| then [Letter(Sextet(n, 2))] else []))
         + (if x + 2 < |s| then [Letter(Sextet(n, 3))] else [])
  {}

  method Base64Decode(input: string) returns (res: Option<array<char>>)
    ensures res.None? <==> !Decodable(input)
    ensures res.Some? ==> fresh(res.value) && |input| % 4 == 0 && res.value[..] == Decode(input) + [NUL]
  {
    hide DecodeGroup, Decode, Octet, DecodeChar;
    var inputLength := |input|;
    if inputLength % 4 != 0 {
      return None;
    }
    var retLength := 3 * (inputLength / 4);
    var ret := new char[retLength + 1];
    var i, j := 0, 0;
    DecodeStart(input);
    while i < inputLength
      invariant i <= inputLength && i % 4 == 0 && j == i / 4 * 3
      invariant forall c | c in input[..i] :: InAlphabet(c)
      invariant ret[..j] + Decode(input[i..]) == Decode(input)
    {
      var n1, n2, n3, n4 :=
        DecodeChar(input[i]), DecodeChar(input[i + 1]), DecodeChar(input[i + 2]), DecodeChar(input[i + 3]);
      if n1 == 255 || n2 == 255 || n3 == 255 || n4 == 255 {
        return None;
      }
      DecodeStep(input, i);
      ghost var before := ret[..j];
      var triple := Combine(n1, n2, n3, n4);
      ret[j] := Octet(triple, 0);
      ret[j + 1] := Octet(triple, 1);
      ret[j + 2] := Octet(triple, 2);
      i, j := i + 4, j + 3;
      assert ret[..j] == before + DecodeGroup(input[i - 4..i]);
    }
    ret[j] := NUL;
    assert input[..i] == input && input[i..] == "";
    res := Some(ret);
  }

  lemma DecodeStart(s: string)
    requires |s| % 4 == 0
    ensures s[0..] == s && Decode("") == []
  {}

  lemma DecodeStep(s: string, i: nat)
    requires |s| % 4 == 0 && i % 4 == 0 && i < |s|
    ensures i + 4 <= |s| && Decode(s[i..]) == DecodeGroup(s[i..i + 4]) + Decode(s[i + 4..])
    ensures var n := Combine(DecodeChar(s[i]), DecodeChar(s[i + 1]), DecodeChar(s[i + 2]), DecodeChar(s[i + 3]));
      DecodeGroup(s[i..i + 4]) == [Octet(n, 0), Octet(n, 1), Octet(n, 2)]
    ensures forall c | c in s[..i + 4] :: c in s[..i] || c in [s[i], s[i + 1], s[i + 2], s[i + 3]]
  {
    var t := s[i..];
    assert t[..4] == s[i..i + 4] && t[4..] == s[i + 4..];
    assert s[..i + 4] == s[..i] + [s[i], s[i + 1], s[i + 2], s[i + 3]];
  }
}
