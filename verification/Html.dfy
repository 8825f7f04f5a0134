/** HTML escaping (src/output.c:13-57). */
module Html {
  import opened CStrings

  predicate Special(c: char) {
    c == '&' || c == '<' || c == '>' || c == '"' || c == '\''
  }

  function Entity(c: char): (e: string)
    ensures 1 <= |e| <= 6 && (|e| == 6 <==> c == '"' || c == '\'')
    ensures Special(c) ==> e[0] == '&' && forall k | 0 < k < |e| :: !Special(e[k])
    ensures !Special(c) ==> e == [c]
    ensures c != NUL ==> NulFree(e)
  {
    match c
    case '&' => "&amp;"
    case '<' => "&lt;"
    case '>' => "&gt;"
    case '"' => "&quot;"
    case '\'' => "&apos;"
    case _ => [c]
  }

  function Escape(s: string): string {
    if s == "" then "" else Entity(s[0]) + Escape(s[1..])
  }

  /** The entity a text starts with: its character, and its length. */
  function EntityAt(t: string): (r: Option<(char, nat)>)
    ensures r.Some? ==> 0 < r.value.1 <= |t|
  {
    if "&amp;" <= t then Some(('&', 5))
    else if "&lt;" <= t then Some(('<', 4))
    else if "&gt;" <= t then Some(('>', 4))
    else if "&quot;" <= t then Some(('"', 6))
    else if "&apos;" <= t then Some(('\'', 6))
    else None
  }

  lemma EntityAtIs(c: char, rest: string)
    requires Special(c)
    ensures EntityAt(Entity(c) + rest) == Some((c, |Entity(c)|))
  {
    var t := Entity(c) + rest;
    assert t[..|Entity(c)|] == Entity(c);
    assert t[1] == Entity(c)[1] && t[2] == Entity(c)[2];
  }

  /** What a browser shows: each of the five entities as its character, all else as it is. */
  function Decode(t: string): string
    decreases |t|
  {
    if t == "" then ""
    else
      match EntityAt(t)
      case Some((c, n)) => [c] + Decode(t[n..])
      case None => [t[0]] + Decode(t[1..])
  }

  /** Escaping is undone by decoding, so no two texts are escaped alike. */
  lemma {:induction false} DecodeEscape(s: string)
    ensures Decode(Escape(s)) == s
  {
    hide Entity, EntityAt;
    if s != "" {
      var e, rest := Entity(s[0]), Escape(s[1..]);
      assert (e + rest)[|e|..] == rest;
      DecodeEscape(s[1..]);
      if Special(s[0]) {
        EntityAtIs(s[0], rest);
      } else {
        NoEntity(e + rest);
      }
    }
  }

  lemma NoEntity(t: string)
    requires t != "" && t[0] != '&'
    ensures EntityAt(t) == None
  {}

  /** No bare special character is left: an `&` only as the start of an entity, and the other four not at all. */
  lemma {:induction false} EscapeIsSafe(s: string, i: nat)
    requires i < |Escape(s)|
    ensures Escape(s)[i] !in "<>\"\'"
    ensures Escape(s)[i] == '&' ==> EntityAt(Escape(s)[i..]) != None
    decreases |s|
  {
    hide Entity, EntityAt;
    var e, rest := Entity(s[0]), Escape(s[1..]);
    if i >= |e| {
      EscapeIsSafe(s[1..], i - |e|);
      assert (e + rest)[i..] == rest[i - |e|..];
    } else if Special(s[0]) {
      EntityAtIs(s[0], rest);
      assert (e + rest)[0..] == e + rest;
    }
  }

  predicate Quote(c: char) {
    c == '"' || c == '\''
  }

  /** The buffer of `6 * n + 1` bytes is enough, and full exactly for texts of quotes alone. */
  lemma {:induction false} EscapeFits(s: string)
    ensures |s| <= |Escape(s)| <= 6 * |s|
    ensures |Escape(s)| == 6 * |s| <==> forall k | 0 <= k < |s| :: Quote(s[k])
  {
    hide Entity;
    if s != "" {
      EscapeFits(s[1..]);
      assert (forall k | 0 <= k < |s| :: Quote(s[k]))
        <==> Quote(s[0]) && forall k | 0 <= k < |s[1..]| :: Quote(s[1..][k]);
    }
  }

  lemma {:induction false} EscapeNext(s: string, c: char)
    ensures Escape(s + [c]) == Escape(s) + Entity(c)
  {
    hide Entity;
    if s == "" {
      assert Escape([c]) == Entity(c) + Escape([c][1..]);
    } else {
      assert (s + [c])[1..] == s[1..] + [c];
      EscapeNext(s[1..], c);
    }
  }

  lemma {:induction false} EscapeNulFree(s: string)
    requires NulFree(s)
    ensures NulFree(Escape(s))
  {
    hide Entity;
    if s != "" {
      assert s[0] in s && s == [s[0]] + s[1..];
      EscapeNulFree(s[1..]);
    }
  }

  ghost predicate Safe(t: string) {
    forall i | 0 <= i < |t| :: t[i] !in "<>\"\'" && (t[i] == '&' ==> EntityAt(t[i..]) != None)
  }

  lemma EntityAtStarts(t: string)
    ensures EntityAt(t).Some? ==>
      var (c, n) := EntityAt(t).value; Special(c) && n == |Entity(c)| && Entity(c) == t[..n]
  {}

  /** And every text without a bare special character is an escaped one. */
  lemma {:induction false} SafeIsEscaped(t: string)
    requires Safe(t)
    ensures Escape(Decode(t)) == t
    decreases |t|
  {
    hide Entity, EntityAt;
    if t != "" {
      EntityAtStarts(t);
      assert t[0..] == t;
      match EntityAt(t)
      case None =>
        SafeTail(t, 1);
        SafeIsEscaped(t[1..]);
        EscapeFirst(t[0], Decode(t[1..]));
      case Some((c, n)) =>
        SafeTail(t, n);
        SafeIsEscaped(t[n..]);
        assert t == Entity(c) + t[n..];
        EscapeFirst(c, Decode(t[n..]));
    }
  }

  lemma SafeTail(t: string, n: nat)
    requires Safe(t) && n <= |t|
    ensures Safe(t[n..])
  {
    hide EntityAt;
    forall i | 0 <= i < |t[n..]| ensures t[n..][i..] == t[n + i..] {}
  }

  lemma EscapeFirst(c: char, s: string)
    ensures Escape([c] + s) == Entity(c) + Escape(s)
  {
    hide Entity;
    assert ([c] + s)[1..] == s;
  }

  // ---------- the loop ----------

  /** `strncpy` of a whole entity. */
  method Put(escaped: array<char>, j: nat, e: string)
    requires j + |e| <= escaped.Length
    modifies escaped
    ensures escaped[..] == old(escaped[..j]) + e + old(escaped[j + |e|..])
  {
    forall k | 0 <= k < |e| {
      escaped[j + k] := e[k];
    }
  }

  /** `wrd_escape_html`; none for a `NULL` input. */
  method EscapeHtml(input: Option<string>) returns (escaped: array?<char>)
    requires input.Some? ==> NUL in input.value
    ensures input == None <==> escaped == null
    ensures escaped != null ==>
      var s := CStr(input.value);
      && fresh(escaped) && escaped.Length == 6 * |s| + 1
      && |Escape(s)| < escaped.Length && CStr(escaped[..]) == Escape(s)
  {
    hide Entity, Escape, CStr;
    if input == None {
      return null;
    }
    var s := CStr(input.value);
    escaped := new char[6 * |s| + 1];
    var i, j := 0, 0;
    EscapeNothing(s);
    while i < |s|
      invariant 0 <= i <= |s| && 0 <= j <= 6 * i
      invariant escaped[..j] == Escape(s[..i])
    {
      EscapeNext(s[..i], s[i]);
      assert s[..i + 1] == s[..i] + [s[i]];
      Put(escaped, j, Entity(s[i]));
      j := j + |Entity(s[i])|;
      i := i + 1;
    }
    assert s[..i] == s;
    escaped[j] := NUL;
    EscapeNulFree(s);
    assert escaped[..][..j] == Escape(s);
    CStrIs(escaped[..], j);
  }

  lemma EscapeNothing(s: string)
    ensures Escape(s[..0]) == ""
  {}
}
