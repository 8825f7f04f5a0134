/**
 * C strings and the few library calls the sources make on them.
 *
 * A byte of memory is a `char`; a block of memory is a `string`. The C string that starts at a
 * pointer is the part of the block before its first zero byte (`CStr`).
 */
module CStrings {

  datatype Option<+T> = None | Some(value: T) {
    function GetOr(default: T): T {
      match this
      case None => default
      case Some(v) => v
    }
  }

  const NUL: char := '\0'
  const CRLF: string := "\r\n"

  predicate NulFree(s: string) {
    NUL !in s
  }

  /** The C string at the start of a block of memory. */
  function CStr(mem: string): (s: string)
    ensures s <= mem && NulFree(s)
    ensures |s| < |mem| ==> mem[|s|] == NUL
  {
    if mem == "" || mem[0] == NUL then "" else [mem[0]] + CStr(mem[1..])
  }

  lemma {:induction false} CStrIs(mem: string, n: nat)
    requires n <= |mem| && NulFree(mem[..n])
    requires n < |mem| ==> mem[n] == NUL
    ensures CStr(mem) == mem[..n]
  {
    var s := CStr(mem);
    assert forall k | 0 <= k < n :: mem[k] == mem[..n][k] != NUL;
    assert forall k | 0 <= k < |s| :: s[k] == mem[k] && s[k] in s;
  }

  lemma CStrId(s: string)
    requires NulFree(s)
    ensures CStr(s) == s
  {
    CStrIs(s, |s|);
  }

  /** The C string at an offset that does not lie past the terminator is the tail of the whole. */
  lemma CStrAt(mem: string, i: nat)
    requires i <= |CStr(mem)|
    ensures CStr(mem[i..]) == CStr(mem)[i..]
  {
    var s := CStr(mem);
    assert mem[i..][..|s| - i] == s[i..];
    CStrIs(mem[i..], |s| - i);
  }

  // ---------- substring search ----------

  predicate OccursAt(s: string, p: string, i: nat) {
    i + |p| <= |s| && s[i..i + |p|] == p
  }

  ghost predicate Contains(s: string, p: string) {
    exists i: nat :: OccursAt(s, p, i)
  }

  ghost predicate NoneBefore(s: string, p: string, i: nat) {
    forall j: nat | j < i :: !OccursAt(s, p, j)
  }

  ghost predicate FirstAt(s: string, p: string, i: nat) {
    OccursAt(s, p, i) && NoneBefore(s, p, i)
  }

  /** What `strstr` looks for: the first place where `p` occurs in `s`. */
  function Find(s: string, p: string): (r: Option<nat>)
    ensures r.Some? ==> FirstAt(s, p, r.value)
    ensures r.None? ==> !Contains(s, p)
  {
    if p <= s then
      Some(0)
    else if s == "" then
      None
    else
      var r := Find(s[1..], p);
      assert forall i: nat | 0 < i && OccursAt(s, p, i) :: OccursAt(s[1..], p, i - 1) by {
        forall i: nat | 0 < i && OccursAt(s, p, i) ensures OccursAt(s[1..], p, i - 1) {
          assert s[1..][i - 1..i - 1 + |p|] == s[i..i + |p|];
        }
      }
      assert r.Some? ==> s[1..][r.value..r.value + |p|] == s[r.value + 1..r.value + 1 + |p|];
      if r.Some? then Some(r.value + 1) else None
  }

  lemma FindIs(s: string, p: string, i: nat)
    requires FirstAt(s, p, i)
    ensures Find(s, p) == Some(i)
  {
    assert Contains(s, p);
    var k := Find(s, p).value;
    assert OccursAt(s, p, k) && OccursAt(s, p, i);
  }

  /** Text after the first occurrence cannot change where it is. */
  lemma FirstAtExtends(s: string, p: string, i: nat, rest: string)
    requires FirstAt(s, p, i)
    ensures FirstAt(s + rest, p, i)
  {
    assert (s + rest)[i..i + |p|] == s[i..i + |p|];
    forall j: nat | j < i ensures !OccursAt(s + rest, p, j) {
      assert (s + rest)[j..j + |p|] == s[j..j + |p|];
      assert !OccursAt(s, p, j);
    }
  }

  lemma FirstAtSuffix(s: string, p: string, i: nat, k: nat)
    requires FirstAt(s, p, i) && k <= i
    ensures FirstAt(s[k..], p, i - k)
  {
    var u := s[k..];
    assert u[i - k..i - k + |p|] == s[i..i + |p|];
    forall j: nat | j < i - k ensures !OccursAt(u, p, j) {
      assert !OccursAt(s, p, j + k);
      assert j + |p| <= |u| ==> u[j..j + |p|] == s[j + k..j + k + |p|];
    }
  }

  lemma FirstAtPrefix(s: string, p: string, i: nat, n: nat)
    requires FirstAt(s, p, i) && i + |p| <= n <= |s|
    ensures FirstAt(s[..n], p, i)
  {
    var u := s[..n];
    assert u[i..i + |p|] == s[i..i + |p|];
    forall j: nat | j < i ensures !OccursAt(u, p, j) {
      assert !OccursAt(s, p, j);
      assert u[j..j + |p|] == s[j..j + |p|];
    }
  }

  /** A word whose first letter comes back nowhere else in it. */
  predicate BorderFree(p: string) {
    p != "" && p[0] !in p[1..]
  }

  /** A border-free word cannot straddle the place where it is appended. */
  lemma BorderFreeAppend(s: string, p: string)
    requires BorderFree(p)
    ensures FirstAt(s + p, p, |s|) <==> !Contains(s, p)
  {
    assert (s + p)[|s|..|s| + |p|] == p;
    if !Contains(s, p) {
      forall j: nat | j < |s| ensures !OccursAt(s + p, p, j) {
        if j + |p| <= |s| {
          assert s[j..j + |p|] == (s + p)[j..j + |p|];
          assert !OccursAt(s, p, j);
        } else {
          var k := |s| - j;
          assert p[1..][k - 1] == p[k] && p[k] != p[0];
          assert (s + p)[j..j + |p|][k] == (s + p)[|s|] == p[0];
        }
      }
    } else {
      var j: nat :| OccursAt(s, p, j);
      assert (s + p)[j..j + |p|] == s[j..j + |p|];
      assert OccursAt(s + p, p, j);
    }
  }

  // ---------- splitting at a word ----------

  /** A text cut at the first occurrence of a word, which is dropped. */
  datatype Cut = Uncut | Cut(before: string, after: string)

  function Split(s: string, p: string): Cut {
    match Find(s, p)
    case None => Uncut
    case Some(n) => Cut(s[..n], s[n + |p|..])
  }

  ghost predicate IsCut(s: string, p: string, c: Cut) {
    match c
    case Uncut => !Contains(s, p)
    case Cut(a, z) => s == a + p + z && FirstAt(a + p, p, |a|)
  }

  lemma SplitIsCut(s: string, p: string)
    ensures IsCut(s, p, Split(s, p))
  {
    var r := Find(s, p);
    if r.Some? {
      var n := r.value;
      var w := s[..n + |p|];
      assert w == s[..n] + p && s == w + s[n + |p|..];
      assert w[n..n + |p|] == s[n..n + |p|];
      forall j: nat | j < n ensures !OccursAt(w, p, j) {
        assert !OccursAt(s, p, j);
        assert j + |p| <= |w| ==> w[j..j + |p|] == s[j..j + |p|];
      }
    }
  }

  lemma CutIsSplit(s: string, p: string, c: Cut)
    requires IsCut(s, p, c)
    ensures c == Split(s, p)
  {
    if c.Cut? {
      var n := |c.before|;
      FirstAtExtends(c.before + p, p, n, c.after);
      FindIs(s, p, n);
      assert s[..n] == c.before && s[n + |p|..] == c.after;
    }
  }

  // ---------- strstr ----------

  /** `strstr(mem + from, p)`, as an index into `mem`. */
  function StrStrAt(mem: string, from: nat, p: string): (r: Option<nat>)
    requires from <= |mem|
    ensures r.Some? ==> from <= r.value && r.value + |p| <= |mem|
  {
    match Find(CStr(mem[from..]), p)
    case None => None
    case Some(d) => Some(from + d)
  }

  /** The search stops inside the block: it meets `p` or a zero byte. */
  ghost predicate Searchable(mem: string, from: nat, p: string) {
    exists k :: from <= k < |mem| && (mem[k] == NUL || OccursAt(mem, p, k))
  }

  method StrStr(mem: string, from: nat, p: string) returns (r: Option<nat>)
    requires p != "" && NulFree(p)
    requires from <= |mem| && Searchable(mem, from, p)
    ensures r == StrStrAt(mem, from, p)
  {
    hide OccursAt, NoneBefore, CStr, StrStrAt, NulFree;
    ghost var stop :| from <= stop < |mem| && (mem[stop] == NUL || OccursAt(mem, p, stop));
    NoneBeforeStart(CStr(mem[from..]), p);
    var d := 0;
    while mem[from + d] != NUL
      invariant from + d <= stop && d <= |CStr(mem[from..])|
      invariant NoneBefore(CStr(mem[from..]), p, d)
      decreases stop - d
    {
      if OccursAt(mem, p, from + d) {
        FoundHere(mem, from, p, d);
        return Some(from + d);
      }
      NotHere(mem, from, p, d);
      d := d + 1;
    }
    NothingLeft(mem, from, p, d);
    r := None;
  }

  lemma NoneBeforeStart(s: string, p: string)
    ensures NoneBefore(s, p, 0)
  {}

  lemma FoundHere(mem: string, from: nat, p: string, d: nat)
    requires NulFree(p) && OccursAt(mem, p, from + d)
    requires d <= |CStr(mem[from..])| && NoneBefore(CStr(mem[from..]), p, d)
    ensures StrStrAt(mem, from, p) == Some(from + d)
  {
    OccursInMemory(mem, from, p, d);
    FindIs(CStr(mem[from..]), p, d);
  }

  /** Inside a C string, memory and string agree on where a word occurs. */
  lemma OccursInMemory(mem: string, from: nat, p: string, d: nat)
    requires from + d <= |mem| && NulFree(p)
    requires d <= |CStr(mem[from..])|
    ensures OccursAt(CStr(mem[from..]), p, d) <==> OccursAt(mem, p, from + d)
  {
    var s, m := CStr(mem[from..]), mem[from..];
    if OccursAt(s, p, d) {
      assert mem[from + d..from + d + |p|] == s[d..d + |p|];
    }
    if OccursAt(mem, p, from + d) {
      forall k | 0 <= k < d + |p| ensures m[k] != NUL {
        assert k < d ==> m[k] == s[k];
        assert d <= k ==> m[k] == mem[from + d..from + d + |p|][k - d];
      }
      assert d + |p| <= |s|;
      assert s[d..d + |p|] == mem[from + d..from + d + |p|];
    }
  }

  lemma NotHere(mem: string, from: nat, p: string, n: nat)
    requires NulFree(p) && from + n < |mem| && mem[from + n] != NUL && !OccursAt(mem, p, from + n)
    requires n <= |CStr(mem[from..])| && NoneBefore(CStr(mem[from..]), p, n)
    ensures n < |CStr(mem[from..])| && NoneBefore(CStr(mem[from..]), p, n + 1)
  {
    OccursInMemory(mem, from, p, n);
    assert mem[from..][n] == mem[from + n];
  }

  lemma NothingLeft(mem: string, from: nat, p: string, n: nat)
    requires p != "" && from + n < |mem| && mem[from + n] == NUL
    requires n <= |CStr(mem[from..])| && NoneBefore(CStr(mem[from..]), p, n)
    ensures StrStrAt(mem, from, p) == None
  {
    var s := CStr(mem[from..]);
    assert mem[from..][n] == NUL;
    assert forall k | 0 <= k < |s| :: s[k] == mem[from..][k] && s[k] in s;
    assert |s| == n;
  }

  /** On a zero-terminated block, `strstr` is a search of its C string. */
  lemma StrStrInString(mem: string, i: nat, p: string)
    requires NUL in mem && i <= |CStr(mem)| && NulFree(p)
    ensures Searchable(mem, i, p)
    ensures StrStrAt(mem, i, p) == StrStrAt(CStr(mem), i, p)
  {
    hide CStr, Find, FirstAt, Contains, Searchable;
    CStrAt(mem, i);
    CStrIsNulFree(mem);
    CStrOfTail(CStr(mem), i);
    StopsAtNul(mem, i, p);
  }

  lemma CStrIsNulFree(mem: string)
    ensures NulFree(CStr(mem)) && |CStr(mem)| <= |mem|
  {}

  lemma StopsAtNul(mem: string, i: nat, p: string)
    requires NUL in mem && i <= |CStr(mem)|
    ensures Searchable(mem, i, p)
  {
    var k := |CStr(mem)|;
    assert k < |mem| && mem[k] == NUL;
  }

  lemma OccursInString(mem: string, i: nat, p: string)
    requires NUL in mem && i <= |CStr(mem)| && NulFree(p)
    ensures OccursAt(mem, p, i) <==> OccursAt(CStr(mem), p, i)
  {
    assert mem[0..] == mem;
    OccursInMemory(mem, 0, p, i);
  }

  lemma CStrOfTail(s: string, i: nat)
    requires i <= |s| && NulFree(s)
    ensures CStr(s[i..]) == s[i..]
  {
    CStrIs(s[i..], |s| - i);
  }

  lemma StrStrHere(s: string, i: nat, p: string)
    requires i <= |s| && NulFree(s)
    ensures StrStrAt(s, i, p) == Some(i) <==> p <= s[i..]
    ensures OccursAt(s, p, i) <==> p <= s[i..]
  {
    CStrOfTail(s, i);
    assert p <= s[i..] <==> OccursAt(s, p, i);
  }

  /** A search of a C string, seen from the text that remains. */
  lemma StrStrFinds(s: string, i: nat, p: string)
    requires i <= |s| && NulFree(s)
    ensures StrStrAt(s, i, p) == match Find(s[i..], p) case None => None case Some(d) => Some(i + d)
  {
    CStrOfTail(s, i);
  }

  lemma CStrStartsWith(m: string, w: string)
    requires w <= m && NulFree(w)
    ensures w <= CStr(m)
  {
    var s := CStr(m);
    assert forall k | 0 <= k < |w| :: w[k] == m[k] && w[k] in w;
    assert |w| <= |s|;
  }

  /** A search that meets its word before any zero byte. */
  lemma StrStrMeets(mem: string, pos: nat, a: string, p: string)
    requires pos <= |mem| && a + p <= mem[pos..] && NulFree(a + p) && FirstAt(a + p, p, |a|)
    ensures StrStrAt(mem, pos, p) == Some(pos + |a|)
  {
    hide FirstAt;
    var s := CStr(mem[pos..]);
    CStrStartsWith(mem[pos..], a + p);
    FirstAtExtends(a + p, p, |a|, s[|a + p|..]);
    assert s == a + p + s[|a + p|..];
    FindIs(s, p, |a|);
  }

  // ---------- memchr ----------

  lemma OneChar(s: string, c: char, i: nat)
    ensures OccursAt(s, [c], i) <==> i < |s| && s[i] == c
  {
    assert i < |s| ==> s[i..i + 1] == [s[i]];
  }

  /** `memchr(s, c, |s|)`, as an index into `s`. */
  method MemChr(s: string, c: char) returns (r: Option<nat>)
    ensures r == Find(s, [c])
  {
    for i := 0 to |s|
      invariant NoneBefore(s, [c], i)
    {
      OneChar(s, c, i);
      if s[i] == c {
        FindIs(s, [c], i);
        return Some(i);
      }
    }
    assert !Contains(s, [c]);
    r := None;
  }

  // ---------- the letters ----------

  const A_TO_M: string := "ABCDEFGHIJKLM"
  const N_TO_Z: string := "NOPQRSTUVWXYZ"
  const SMALL_A_TO_M: string := "abcdefghijklm"
  const SMALL_N_TO_Z: string := "nopqrstuvwxyz"

  /** A letter and its place. */
  lemma LettersAre(n: nat)
    ensures |A_TO_M| == |N_TO_Z| == |SMALL_A_TO_M| == |SMALL_N_TO_Z| == 13
    ensures n < 13 ==> A_TO_M[n] as int == 'A' as int + n && N_TO_Z[n] as int == 'A' as int + 13 + n
    ensures n < 13 ==> SMALL_A_TO_M[n] as int == 'a' as int + n && SMALL_N_TO_Z[n] as int == 'a' as int + 13 + n
  {}

  lemma LettersHave(c: char)
    ensures 'A' <= c <= 'Z' <==> c in A_TO_M || c in N_TO_Z
    ensures 'a' <= c <= 'z' <==> c in SMALL_A_TO_M || c in SMALL_N_TO_Z
  {
    if 'A' <= c <= 'Z' {
      var n := c as int - 'A' as int;
      LettersAre(if n < 13 then n else n - 13);
      assert c == if n < 13 then A_TO_M[n] else N_TO_Z[n - 13];
    }
    if 'a' <= c <= 'z' {
      var n := c as int - 'a' as int;
      LettersAre(if n < 13 then n else n - 13);
      assert c == if n < 13 then SMALL_A_TO_M[n] else SMALL_N_TO_Z[n - 13];
    }
  }
}
