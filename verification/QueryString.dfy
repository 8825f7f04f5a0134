/**
 * Query strings (src/app/app.c:51-121): `strtok_r` cuts the string in place at each `&`, and every
 * `name=value` piece sets a field of the query.
 */
module QueryString {
  import opened CStrings
  import opened Decimal

  // ---------- cutting at `&` ----------

  /** Where the piece that starts at `i` ends. */
  function End(s: string, i: nat): (n: nat)
    requires i <= |s|
    ensures i <= n <= |s| && '&' !in s[i..n] && (n < |s| ==> s[n] == '&')
    decreases |s| - i
  {
    if i == |s| || s[i] == '&' then i
    else
      var n := End(s, i + 1);
      assert s[i..n] == [s[i]] + s[i + 1..n];
      n
  }

  /** The pieces between the `&`s from `i` on, empty ones included. */
  function Pieces(s: string, i: nat): seq<string>
    requires i <= |s|
    decreases |s| - i
  {
    var n := End(s, i);
    [s[i..n]] + if n == |s| then [] else Pieces(s, n + 1)
  }

  function Join(pieces: seq<string>): string {
    if pieces == [] then ""
    else if |pieces| == 1 then pieces[0]
    else pieces[0] + ['&'] + Join(pieces[1..])
  }

  lemma PiecesFrom(s: string, i: nat)
    requires i <= |s|
    ensures var n := End(s, i);
            Pieces(s, i) == [s[i..n]] + if n == |s| then [] else Pieces(s, n + 1)
  {}

  lemma JoinOne(p: string)
    ensures Join([p]) == p
  {}

  lemma JoinMore(p: string, rest: seq<string>)
    requires rest != []
    ensures Join([p] + rest) == p + ['&'] + Join(rest)
  {
    assert ([p] + rest)[1..] == rest;
  }

  /** Nothing is lost by cutting. */
  lemma {:induction false} JoinPieces(s: string, i: nat)
    requires i <= |s|
    ensures Join(Pieces(s, i)) == s[i..] && Pieces(s, i) != []
    ensures forall k | 0 <= k < |Pieces(s, i)| :: '&' !in Pieces(s, i)[k]
    decreases |s| - i
  {
    hide Join, Pieces, End;
    var n := End(s, i);
    PiecesFrom(s, i);
    if n < |s| {
      JoinPieces(s, n + 1);
      JoinMore(s[i..n], Pieces(s, n + 1));
      assert s[i..] == s[i..n] + ['&'] + s[n + 1..];
    } else {
      JoinOne(s[i..n]);
      assert s[i..n] == s[i..] && Pieces(s, i) == [s[i..n]];
    }
  }

  /** And the pieces are the only ones that give the string. */
  lemma {:induction false} PiecesOfJoin(s: string, i: nat, pieces: seq<string>)
    requires pieces != [] && forall k | 0 <= k < |pieces| :: '&' !in pieces[k]
    requires i <= |s| && s[i..] == Join(pieces)
    ensures Pieces(s, i) == pieces
    decreases |pieces|
  {
    hide End, Join, Pieces;
    var n := i + |pieces[0]|;
    JoinStarts(pieces);
    assert s[i..n] == s[i..][..n - i];
    assert n < |s| ==> s[n] == s[i..][n - i];
    EndIs(s, i, n);
    if |pieces| > 1 {
      assert s[n + 1..] == s[i..][n + 1 - i..];
      PiecesOfJoin(s, n + 1, pieces[1..]);
    }
    PiecesFrom(s, i);
    assert [pieces[0]] + pieces[1..] == pieces;
  }

  lemma JoinStarts(pieces: seq<string>)
    requires pieces != []
    ensures var n := |pieces[0]|;
            var s := Join(pieces);
            && n <= |s| && s[..n] == pieces[0]
            && (n < |s| <==> |pieces| > 1)
            && (|pieces| > 1 ==> s[n] == '&' && s[n + 1..] == Join(pieces[1..]))
  {}

  lemma {:induction false} EndIs(s: string, i: nat, n: nat)
    requires i <= n <= |s| && '&' !in s[i..n] && (n < |s| ==> s[n] == '&')
    ensures End(s, i) == n
    decreases n - i
  {
    if i < n {
      assert s[i] in s[i..n];
      assert s[i..n][1..] == s[i + 1..n];
      EndIs(s, i + 1, n);
    }
  }

  /** What repeated `strtok_r` gives from `i` on: runs of `&` count as one, and those at the ends not at all. */
  function Tokens(s: string, i: nat): seq<string>
    requires i <= |s|
    decreases |s| - i
  {
    if i == |s| then []
    else if s[i] == '&' then Tokens(s, i + 1)
    else [s[i..End(s, i)]] + Tokens(s, End(s, i))
  }

  function NonEmpty(pieces: seq<string>): seq<string> {
    if pieces == [] then []
    else (if pieces[0] == "" then [] else [pieces[0]]) + NonEmpty(pieces[1..])
  }

  lemma TokensFrom(s: string, i: nat)
    requires i <= |s|
    ensures var n := End(s, i);
            var rest := if n == |s| then [] else Tokens(s, n + 1);
            Tokens(s, i) == (if i == n then [] else [s[i..n]]) + rest
  {
    var n := End(s, i);
    assert n < |s| ==> Tokens(s, n) == Tokens(s, n + 1);
  }

  lemma NonEmptyFirst(p: string, rest: seq<string>)
    ensures NonEmpty([p] + rest) == (if p == "" then [] else [p]) + NonEmpty(rest)
    ensures NonEmpty([]) == []
  {
    assert ([p] + rest)[1..] == rest;
  }

  /** The tokens are the non-empty pieces, in order. */
  lemma {:induction false} TokensArePieces(s: string, i: nat)
    requires i <= |s|
    ensures Tokens(s, i) == NonEmpty(Pieces(s, i))
    decreases |s| - i
  {
    hide End, Pieces, Tokens, NonEmpty;
    var n := End(s, i);
    PiecesFrom(s, i);
    TokensFrom(s, i);
    NonEmptyFirst(s[i..n], if n == |s| then [] else Pieces(s, n + 1));
    if n < |s| {
      TokensArePieces(s, n + 1);
    }
  }

  lemma {:induction false} NonEmptyId(pieces: seq<string>)
    requires forall k | 0 <= k < |pieces| :: pieces[k] != ""
    ensures NonEmpty(pieces) == pieces
  {
    if pieces != [] {
      NonEmptyId(pieces[1..]);
    }
  }

  // ---------- parameters ----------

  datatype Name = Limit | Offset | Id | Multi | Key | Value | OrderBy | Sort

  function Spelling(n: Name): string {
    match n
    case Limit => "limit"
    case Offset => "offset"
    case Id => "id"
    case Multi => "multi"
    case Key => "key"
    case Value => "value"
    case OrderBy => "orderby"
    case Sort => "sort"
  }

  function NameOf(s: string): Option<Name> {
    if s == "limit" then Some(Limit)
    else if s == "offset" then Some(Offset)
    else if s == "id" then Some(Id)
    else if s == "multi" then Some(Multi)
    else if s == "key" then Some(Key)
    else if s == "value" then Some(Value)
    else if s == "orderby" then Some(OrderBy)
    else if s == "sort" then Some(Sort)
    else None
  }

  lemma NameOfSpelling(n: Name)
    ensures NameOf(Spelling(n)) == Some(n)
    ensures Spelling(n) != "" && '=' !in Spelling(n) && '&' !in Spelling(n) && NulFree(Spelling(n))
  {}

  datatype Pair = Pair(name: Name, value: string)

  /** A parameter, cut at its first `=`; none where there is no `=` or the name is not known. */
  function PairOf(p: string): Option<Pair> {
    match Find(p, "=")
    case None => None
    case Some(e) =>
      var name := NameOf(p[..e]);
      if name.None? then None else Some(Pair(name.value, p[e + 1..]))
  }

  function Written(p: Pair): string {
    Spelling(p.name) + ['='] + p.value
  }

  lemma PairOfWritten(p: Pair)
    ensures PairOf(Written(p)) == Some(p)
  {
    hide Spelling, NameOf;
    var s, e := Written(p), |Spelling(p.name)|;
    NameOfSpelling(p.name);
    forall j: nat | j < e ensures !OccursAt(s, "=", j) {
      assert s[j] == Spelling(p.name)[j] && s[j] in Spelling(p.name);
      OneChar(s, '=', j);
    }
    OneChar(s, '=', e);
    FindIs(s, "=", e);
    assert s[..e] == Spelling(p.name) && s[e + 1..] == p.value;
  }

  /** A parameter counts if it has a `=` and one of the eight names before the first. */
  lemma ParameterIs(name: string, value: string)
    requires '=' !in name
    ensures PairOf(name) == None
    ensures PairOf(name + "=" + value).Some?
        <==> name in ["limit", "offset", "id", "multi", "key", "value", "orderby", "sort"]
    ensures PairOf(name + "=" + value).Some? ==> PairOf(name + "=" + value).value.value == value
  {
    hide NameOf;
    var s := name + "=" + value;
    forall j: nat ensures !OccursAt(name, "=", j) && (j < |name| ==> !OccursAt(s, "=", j)) {
      OneChar(name, '=', j);
      OneChar(s, '=', j);
    }
    OneChar(s, '=', |name|);
    FindIs(s, "=", |name|);
    assert s[..|name|] == name && s[|name| + 1..] == value;
    NamesAre(name);
  }

  function PairsOf(params: seq<string>): seq<Pair> {
    if params == [] then []
    else
      var p := PairOf(params[0]);
      (if p.Some? then [p.value] else []) + PairsOf(params[1..])
  }

  // ---------- the query ----------

  /** `(unsigned int)strtol(…)` */
  function ToUnsigned(n: int): (r: nat)
    ensures r < 0x1_0000_0000
    ensures 0 <= n < 0x1_0000_0000 ==> r == n
    ensures (n - r) % 0x1_0000_0000 == 0
  {
    n % 0x1_0000_0000
  }

  const ULLONG_MAX: nat := 0xffff_ffff_ffff_ffff

  /** `strtoull(s, NULL, 10)`: a minus sign negates modulo 2^64, too many digits give the greatest value. */
  function Strtoull(s: string): (r: nat)
    ensures r <= ULLONG_MAX
  {
    var t := SkipSpaces(s);
    var minus := t != "" && t[0] == '-';
    var n := ReadDigits(if minus || (t != "" && t[0] == '+') then t[1..] else t, 0);
    if n > ULLONG_MAX then ULLONG_MAX
    else if minus && n > 0 then ULLONG_MAX + 1 - n
    else n
  }

  lemma StrtoullShow(n: nat)
    requires n <= ULLONG_MAX
    ensures Strtoull(Show(n)) == n
  {
    ReadShow(n, "");
    assert Show(n) + "" == Show(n);
    assert Show(n)[0] in Show(n);
  }

  /** Blanks, a sign or none, and a number of any size. */
  lemma StrtoullIs(blanks: string, sign: string, n: nat, t: string)
    requires (forall c | c in blanks :: Blank(c)) && (t == "" || t[0] !in DIGITS) && sign in ["", "+", "-"]
    ensures Strtoull(blanks + (sign + Show(n) + t)) ==
      if n > 18446744073709551615 then 18446744073709551615
      else if sign == "-" && n > 0 then 18446744073709551616 - n else n
  {
    hide Show, ReadDigits;
    var digits := Show(n) + t;
    assert digits[0] == Show(n)[0] && Show(n)[0] in Show(n);
    DigitsAre(digits[0]);
    if t != "" {
      DigitsAre(t[0]);
    }
    ReadShow(n, t);
    var all := sign + digits;
    assert sign + Show(n) + t == all;
    assert sign == "" ==> all == digits;
    assert sign != "" ==> all[0] == sign[0] && all[1..] == digits;
    SkipBlanks(blanks, all);
  }

  datatype Fields = Fields(
    id: nat, offset: nat, limit: nat, multi: nat,
    key: Option<string>, value: Option<string>, orderby: Option<string>, sort: Option<string>)

  const Defaults := Fields(0, 0, 10, 0, None, None, None, None)

  function Set(q: Fields, p: Pair): Fields {
    match p.name
    case Limit => q.(limit := ToUnsigned(Strtol(p.value)))
    case Offset => q.(offset := Strtoull(p.value))
    case Id => q.(id := Strtoull(p.value))
    case Multi => q.(multi := ToUnsigned(Strtol(p.value)))
    case Key => q.(key := Some(p.value))
    case Value => q.(value := Some(p.value))
    case OrderBy => q.(orderby := Some(p.value))
    case Sort => q.(sort := Some(p.value))
  }

  function SetAll(q: Fields, pairs: seq<Pair>): Fields
    decreases |pairs|
  {
    if pairs == [] then q else SetAll(Set(q, pairs[0]), pairs[1..])
  }

  /** The query a string describes. */
  function Parse(s: string): Fields {
    SetAll(Defaults, PairsOf(Tokens(s, 0)))
  }

  /** The value of the last parameter of a name. */
  function Last(pairs: seq<Pair>, n: Name): (r: Option<string>)
    ensures r.None? ==> forall k | 0 <= k < |pairs| :: pairs[k].name != n
    ensures r.Some? ==> exists k :: 0 <= k < |pairs| && pairs[k] == Pair(n, r.value)
                                 && forall j | k < j < |pairs| :: pairs[j].name != n
  {
    if pairs == [] then None
    else
      var rest := pairs[1..];
      var r := Last(rest, n);
      assert r.Some? ==> forall k | 0 <= k < |rest| :: rest[k] == pairs[k + 1];
      assert r.None? ==> forall j | 0 < j < |pairs| :: pairs[j] == rest[j - 1];
      if r.Some? then r else if pairs[0].name == n then Some(pairs[0].value) else None
  }

  datatype Cell = Number(n: nat) | Text(t: Option<string>)

  /** A field by the name of its parameter. */
  function Get(q: Fields, n: Name): Cell {
    match n
    case Limit => Number(q.limit)
    case Offset => Number(q.offset)
    case Id => Number(q.id)
    case Multi => Number(q.multi)
    case Key => Text(q.key)
    case Value => Text(q.value)
    case OrderBy => Text(q.orderby)
    case Sort => Text(q.sort)
  }

  /** How a value is read, by name. */
  function Read(n: Name, v: string): Cell {
    match n
    case Id => Number(Strtoull(v))
    case Offset => Number(Strtoull(v))
    case Limit => Number(ToUnsigned(Strtol(v)))
    case Multi => Number(ToUnsigned(Strtol(v)))
    case Key => Text(Some(v))
    case Value => Text(Some(v))
    case OrderBy => Text(Some(v))
    case Sort => Text(Some(v))
  }

  lemma SetSets(q: Fields, p: Pair, n: Name)
    ensures Get(Set(q, p), n) == if p.name == n then Read(n, p.value) else Get(q, n)
  {
    hide Strtoull, ToUnsigned, Strtol;
  }

  /** Each field is read from the last parameter of its name, or keeps what it had. */
  lemma {:induction false} LastWins(q: Fields, pairs: seq<Pair>, n: Name)
    ensures Get(SetAll(q, pairs), n) == if Last(pairs, n).Some? then Read(n, Last(pairs, n).value) else Get(q, n)
    decreases |pairs|
  {
    hide Get, Set, Read;
    if pairs != [] {
      LastWins(Set(q, pairs[0]), pairs[1..], n);
      SetSets(q, pairs[0], n);
    }
  }

  // ---------- printing ----------

  function Maybe(n: Name, v: Option<string>): seq<Pair> {
    if v.Some? then [Pair(n, v.value)] else []
  }

  function Numbers(q: Fields): seq<Pair> {
    [Pair(Id, Show(q.id)), Pair(Offset, Show(q.offset)), Pair(Limit, Show(q.limit)), Pair(Multi, Show(q.multi))]
  }

  function Texts(q: Fields): seq<Pair> {
    Maybe(Key, q.key) + Maybe(Value, q.value) + Maybe(OrderBy, q.orderby) + Maybe(Sort, q.sort)
  }

  function PairsFor(q: Fields): seq<Pair> {
    Numbers(q) + Texts(q)
  }

  function WrittenAll(pairs: seq<Pair>): seq<string> {
    seq(|pairs|, k requires 0 <= k < |pairs| => Written(pairs[k]))
  }

  function Print(q: Fields): string {
    Join(WrittenAll(PairsFor(q)))
  }

  lemma {:induction false} PairsOfWritten(pairs: seq<Pair>)
    ensures PairsOf(WrittenAll(pairs)) == pairs
  {
    if pairs != [] {
      PairOfWritten(pairs[0]);
      PairsOfWritten(pairs[1..]);
      assert WrittenAll(pairs)[1..] == WrittenAll(pairs[1..]);
    }
  }

  /** Any list of parameters whose values hold no `&` is read back from its joined form. */
  lemma ParametersRoundTrip(pairs: seq<Pair>)
    requires pairs != [] && forall p | p in pairs :: '&' !in p.value
    ensures PairsOf(Tokens(Join(WrittenAll(pairs)), 0)) == pairs
  {
    hide PairsOf, Join, Pieces, Tokens, NonEmpty, Spelling;
    var params := WrittenAll(pairs);
    forall k | 0 <= k < |params| ensures '&' !in params[k] && params[k] != "" {
      assert pairs[k] in pairs;
      NameOfSpelling(pairs[k].name);
    }
    PiecesOfJoin(Join(params), 0, params);
    TokensArePieces(Join(params), 0);
    NonEmptyId(params);
    PairsOfWritten(pairs);
  }

  lemma {:induction false} SetAllTogether(q: Fields, a: seq<Pair>, b: seq<Pair>)
    ensures SetAll(q, a + b) == SetAll(SetAll(q, a), b)
    decreases |a|
  {
    hide Set;
    if a == [] {
      assert a + b == b;
    } else {
      SetAllTogether(Set(q, a[0]), a[1..], b);
      assert (a + b)[1..] == a[1..] + b;
    }
  }

  lemma SetOne(q: Fields, p: Pair)
    ensures SetAll(q, [p]) == Set(q, p) && SetAll(q, []) == q
  {}

  lemma SetMaybe(q: Fields, n: Name, v: Option<string>)
    ensures SetAll(q, Maybe(n, v)) == if v.Some? then Set(q, Pair(n, v.value)) else q
  {
    if v.Some? {
      SetOne(q, Pair(n, v.value));
    }
  }

  lemma SetTexts(q: Fields, key: Option<string>, value: Option<string>, orderby: Option<string>, sort: Option<string>)
    requires q.key == None && q.value == None && q.orderby == None && q.sort == None
    ensures SetAll(q, Maybe(Key, key) + Maybe(Value, value) + Maybe(OrderBy, orderby) + Maybe(Sort, sort))
         == Fields(q.id, q.offset, q.limit, q.multi, key, value, orderby, sort)
  {
    hide SetAll, Maybe;
    var a, b, c, d := Maybe(Key, key), Maybe(Value, value), Maybe(OrderBy, orderby), Maybe(Sort, sort);
    SetAllTogether(q, a + b + c, d);
    SetAllTogether(q, a + b, c);
    SetAllTogether(q, a, b);
    var q1 := SetAll(q, a);
    SetMaybe(q, Key, key);
    var q2 := SetAll(q1, b);
    SetMaybe(q1, Value, value);
    var q3 := SetAll(q2, c);
    SetMaybe(q2, OrderBy, orderby);
    SetMaybe(q3, Sort, sort);
  }

  lemma SetNumbers(q: Fields)
    requires q.id <= ULLONG_MAX && q.offset <= ULLONG_MAX
    requires q.limit < 0x1_0000_0000 && q.multi < 0x1_0000_0000
    ensures SetAll(Defaults, Numbers(q)) == Fields(q.id, q.offset, q.limit, q.multi, None, None, None, None)
  {
    hide Show, Strtol, Strtoull, ToUnsigned;
    StrtoullShow(q.id);
    StrtoullShow(q.offset);
    StrtolShow(q.limit, "");
    StrtolShow(q.multi, "");
    assert Show(q.limit) + "" == Show(q.limit) && Show(q.multi) + "" == Show(q.multi);
    assert ToUnsigned(q.limit) == q.limit && ToUnsigned(q.multi) == q.multi;
    var p, r := Pair(Id, Show(q.id)), Pair(Offset, Show(q.offset));
    var t, u := Pair(Limit, Show(q.limit)), Pair(Multi, Show(q.multi));
    SetTwo(Defaults, p, r);
    SetTwo(Set(Set(Defaults, p), r), t, u);
    SetAllTogether(Defaults, [p, r], [t, u]);
    assert Numbers(q) == [p, r] + [t, u];
  }

  lemma SetTwo(q: Fields, a: Pair, b: Pair)
    ensures SetAll(q, [a, b]) == Set(Set(q, a), b)
  {
    SetOne(Set(q, a), b);
    assert [a, b][1..] == [b];
  }

  lemma {:induction false} JoinNulFree(pieces: seq<string>)
    requires forall p | p in pieces :: NulFree(p)
    ensures NulFree(Join(pieces))
  {
    if pieces != [] {
      assert pieces[0] in pieces && pieces == [pieces[0]] + pieces[1..];
      JoinNulFree(pieces[1..]);
    }
  }

  lemma PrintedNulFree(pairs: seq<Pair>)
    requires forall p | p in pairs :: NulFree(p.value)
    ensures NulFree(Join(WrittenAll(pairs)))
  {
    hide Join, Spelling;
    var params := WrittenAll(pairs);
    forall p | p in params ensures NulFree(p) {
      var k :| 0 <= k < |params| && params[k] == p;
      assert pairs[k] in pairs && p == Written(pairs[k]);
      NameOfSpelling(pairs[k].name);
    }
    JoinNulFree(params);
  }

  lemma SetAllPairs(q: Fields)
    requires InRange(q)
    ensures SetAll(Defaults, PairsFor(q)) == q && PairsFor(q) != []
  {
    hide SetAll, Maybe, Clean;
    SetAllTogether(Defaults, Numbers(q), Texts(q));
    SetNumbers(q);
    SetTexts(SetAll(Defaults, Numbers(q)), q.key, q.value, q.orderby, q.sort);
  }

  /** A query as a client writes it. */
  function ShownQuery(q: Fields): string {
    "id=" + Show(q.id) + ("&offset=" + Show(q.offset) + ("&limit=" + Show(q.limit)) + ("&multi=" + Show(q.multi)))
    + ShownTexts(q)
  }

  function ShownTexts(q: Fields): string {
    (if q.key.Some? then "&key=" + q.key.value else "")
    + (if q.value.Some? then "&value=" + q.value.value else "")
    + (if q.orderby.Some? then "&orderby=" + q.orderby.value else "")
    + (if q.sort.Some? then "&sort=" + q.sort.value else "")
  }

  /** Each piece with an `&` before it. */
  function Amped(pieces: seq<string>): string {
    if pieces == [] then "" else ['&'] + pieces[0] + Amped(pieces[1..])
  }

  lemma {:induction false} AmpedTogether(a: seq<string>, b: seq<string>)
    ensures Amped(a + b) == Amped(a) + Amped(b)
  {
    if a == [] {
      assert a + b == b;
    } else {
      AmpedTogether(a[1..], b);
      assert (a + b)[1..] == a[1..] + b;
    }
  }

  lemma {:induction false} JoinIsAmped(pieces: seq<string>)
    requires pieces != []
    ensures Join(pieces) == pieces[0] + Amped(pieces[1..])
  {
    if |pieces| > 1 {
      JoinIsAmped(pieces[1..]);
      assert Amped(pieces[1..]) == ['&'] + pieces[1] + Amped(pieces[1..][1..]);
    }
  }

  function AmpedPair(p: Pair): string {
    ['&'] + Written(p)
  }

  lemma AmpedWritten(pairs: seq<Pair>, p: Pair)
    ensures Amped(WrittenAll(pairs + [p])) == Amped(WrittenAll(pairs)) + AmpedPair(p)
  {
    hide Written;
    assert WrittenAll(pairs + [p]) == WrittenAll(pairs) + [Written(p)];
    AmpedTogether(WrittenAll(pairs), [Written(p)]);
    assert Amped([Written(p)]) == ['&'] + Written(p) + Amped([]) by { assert [Written(p)][1..] == []; }
  }

  lemma AmpedMaybe(pairs: seq<Pair>, n: Name, v: Option<string>)
    ensures Amped(WrittenAll(pairs + Maybe(n, v)))
         == Amped(WrittenAll(pairs)) + if v.Some? then AmpedPair(Pair(n, v.value)) else ""
  {
    hide Written;
    if v.Some? {
      AmpedWritten(pairs, Pair(n, v.value));
    } else {
      assert pairs + [] == pairs;
    }
  }

  lemma AmpedPairIs(n: Name, v: string)
    ensures AmpedPair(Pair(n, v)) ==
      match n
      case Limit => "&limit=" + v
      case Offset => "&offset=" + v
      case Id => "&id=" + v
      case Multi => "&multi=" + v
      case Key => "&key=" + v
      case Value => "&value=" + v
      case OrderBy => "&orderby=" + v
      case Sort => "&sort=" + v
  {}

  lemma TextsAreShown(pairs: seq<Pair>, q: Fields)
    ensures Amped(WrittenAll(pairs + Texts(q))) == Amped(WrittenAll(pairs)) + ShownTexts(q)
  {
    hide AmpedPair, WrittenAll, Maybe, Amped;
    var a, b, c, d := Maybe(Key, q.key), Maybe(Value, q.value), Maybe(OrderBy, q.orderby), Maybe(Sort, q.sort);
    assert pairs + Texts(q) == pairs + a + b + c + d;
    AmpedMaybe(pairs, Key, q.key);
    AmpedMaybe(pairs + a, Value, q.value);
    AmpedMaybe(pairs + a + b, OrderBy, q.orderby);
    AmpedMaybe(pairs + a + b + c, Sort, q.sort);
    AmpedPairIs(Key, q.key.GetOr(""));
    AmpedPairIs(Value, q.value.GetOr(""));
    AmpedPairIs(OrderBy, q.orderby.GetOr(""));
    AmpedPairIs(Sort, q.sort.GetOr(""));
    FourPieces(Amped(WrittenAll(pairs)), q);
  }

  lemma FourPieces(s: string, q: Fields)
    ensures s + (if q.key.Some? then "&key=" + q.key.value else "")
              + (if q.value.Some? then "&value=" + q.value.value else "")
              + (if q.orderby.Some? then "&orderby=" + q.orderby.value else "")
              + (if q.sort.Some? then "&sort=" + q.sort.value else "")
         == s + ShownTexts(q)
  {}

  /** The printer writes what a client writes. */
  lemma PrintIsShown(q: Fields)
    ensures Print(q) == ShownQuery(q)
  {
    hide Join, Show, AmpedPair, WrittenAll, Texts, ShownTexts, Amped, Written;
    var id, o := Pair(Id, Show(q.id)), Pair(Offset, Show(q.offset));
    var l, m := Pair(Limit, Show(q.limit)), Pair(Multi, Show(q.multi));
    assert PairsFor(q) == [id] + ([o, l, m] + Texts(q));
    FirstWritten(id, [o, l, m] + Texts(q));
    AmpedThree(o, l, m);
    TextsAreShown([o, l, m], q);
    AmpedPairIs(Offset, Show(q.offset));
    AmpedPairIs(Limit, Show(q.limit));
    AmpedPairIs(Multi, Show(q.multi));
    assert Written(id) == "id=" + Show(q.id) by { IdIsFirst(Show(q.id)); }
  }

  lemma IdIsFirst(v: string)
    ensures Written(Pair(Id, v)) == "id=" + v
  {}

  lemma FirstWritten(p: Pair, rest: seq<Pair>)
    ensures Join(WrittenAll([p] + rest)) == Written(p) + Amped(WrittenAll(rest))
  {
    hide Written;
    assert WrittenAll([p] + rest)[1..] == WrittenAll(rest);
    JoinIsAmped(WrittenAll([p] + rest));
  }

  lemma AmpedThree(a: Pair, b: Pair, c: Pair)
    ensures Amped(WrittenAll([a, b, c])) == AmpedPair(a) + AmpedPair(b) + AmpedPair(c)
  {
    hide Written, AmpedPair;
    assert [a, b, c] == [a, b] + [c] && [a, b] == [a] + [b] && [a] == [] + [a];
    AmpedWritten([], a);
    AmpedWritten([a], b);
    AmpedWritten([a, b], c);
    assert WrittenAll([]) == [] && Amped([]) == "";
  }

  /** A name that is not one of the eight sets nothing. */
  lemma NamesAre(s: string)
    ensures NameOf(s).Some?
        <==> s in ["limit", "offset", "id", "multi", "key", "value", "orderby", "sort"]
  {}

  lemma NothingAsked()
    ensures Parse("") == Fields(0, 0, 10, 0, None, None, None, None)
  {}

  predicate Clean(v: string) {
    '&' !in v && NulFree(v)
  }

  /** What can be printed: every number within its type, no text with an `&` or a zero byte. */
  predicate InRange(q: Fields) {
    && q.id <= ULLONG_MAX && q.offset <= ULLONG_MAX
    && q.limit < 0x1_0000_0000 && q.multi < 0x1_0000_0000
    && Clean(q.key.GetOr("")) && Clean(q.value.GetOr("")) && Clean(q.orderby.GetOr("")) && Clean(q.sort.GetOr(""))
  }

  lemma CleanPairs(q: Fields)
    requires InRange(q)
    ensures forall p | p in PairsFor(q) :: Clean(p.value)
  {
    hide Show;
  }

  /** Printing an in-range query and parsing the C string it makes gives the query back. */
  lemma RoundTrip(q: Fields, rest: string)
    requires InRange(q)
    ensures Parse(CStr(ShownQuery(q) + [NUL] + rest)) == q
  {
    hide PairsOf, Tokens, Join, WrittenAll, PairsFor, SetAll, Numbers, CStr, Spelling, ShownQuery;
    PrintIsShown(q);
    var pairs := PairsFor(q);
    CleanPairs(q);
    SetAllPairs(q);
    ParametersRoundTrip(pairs);
    PrintedNulFree(pairs);
    var memory := Print(q) + [NUL] + rest;
    assert memory[..|Print(q)|] == Print(q);
    CStrIs(memory, |Print(q)|);
  }

  // ---------- in place ----------

  /** What `strtok_r` leaves of a string: each `&` that ends a token has become a zero byte. */
  function Torn(s: string, k: nat): char
    requires k < |s|
  {
    if k > 0 && s[k] == '&' && s[k - 1] != '&' then NUL else s[k]
  }

  /** A string that has been tokenised up to `at`. */
  ghost predicate Tokenising(mem: string, s: string, at: nat) {
    && at <= |s| < |mem| && NulFree(s) && mem[|s|] == NUL
    && (forall k | at <= k < |s| :: mem[k] == s[k])
    && (forall k | 0 <= k < at :: mem[k] == Torn(s, k))
    && (0 < at < |s| ==> s[at - 1] == '&')
  }

  /** Going past `&`s changes nothing. */
  lemma {:induction false} SkipKeepsTokens(s: string, at: nat, a: nat)
    requires at <= a <= |s| && forall k | at <= k < a :: s[k] == '&'
    ensures Tokens(s, at) == Tokens(s, a)
    decreases a - at
  {
    if at < a {
      SkipKeepsTokens(s, at + 1, a);
    }
  }

  /** A token from `a` to `n`, its delimiter overwritten. */
  lemma TokenCut(mem: string, s: string, at: nat, a: nat, n: nat, cut: string)
    requires Tokenising(mem, s, at) && at <= a < n <= |s|
    requires forall k | at <= k < a :: s[k] == '&'
    requires (forall k | a <= k < n :: s[k] != '&') && (n < |s| ==> s[n] == '&')
    requires cut == if n < |s| then mem[n := NUL] else mem
    ensures Tokenising(cut, s, if n < |s| then n + 1 else n)
    ensures Tokens(s, at) == [CStr(cut[a..])] + Tokens(s, if n < |s| then n + 1 else n)
  {
    hide CStr, Tokens, Torn;
    SkipKeepsTokens(s, at, a);
    NextToken(s, a, n);
    forall k | at <= k < n ensures Torn(s, k) == s[k] {
      TornOnlyAtEnds(s, at, a, n, k);
    }
    assert n < |s| ==> Torn(s, n) == NUL by { TornAt(s, n); }
    assert cut[a..][..n - a] == s[a..n];
    CStrIs(cut[a..], n - a);
  }

  lemma TornAt(s: string, n: nat)
    requires 0 < n <= |s| && s[n - 1] != '&'
    ensures n < |s| && s[n] == '&' ==> Torn(s, n) == NUL
  {}

  lemma TornOnlyAtEnds(s: string, at: nat, a: nat, n: nat, k: nat)
    requires at <= a < n <= |s| && at <= k < n && (0 < at ==> s[at - 1] == '&')
    requires (forall j | at <= j < a :: s[j] == '&') && (forall j | a <= j < n :: s[j] != '&')
    ensures Torn(s, k) == s[k]
  {}

  lemma NextToken(s: string, a: nat, n: nat)
    requires a < n <= |s|
    requires (forall k | a <= k < n :: s[k] != '&') && (n < |s| ==> s[n] == '&')
    ensures Tokens(s, a) == [s[a..n]] + Tokens(s, if n < |s| then n + 1 else n)
  {
    EndIs(s, a, n);
  }

  lemma NoTokens(mem: string, s: string, at: nat)
    requires Tokenising(mem, s, at) && forall k | at <= k < |s| :: s[k] == '&'
    ensures Tokenising(mem, s, |s|) && Tokens(s, at) == []
  {
    SkipKeepsTokens(s, at, |s|);
  }

  /** `strtok_r`: where the next token starts, and where to go on. */
  method StrTokR(buf: array<char>, at: nat, ghost s: string) returns (token: Option<nat>, save: nat)
    requires Tokenising(buf[..], s, at)
    modifies buf
    ensures Tokenising(buf[..], s, save) && forall k | |s| <= k < buf.Length :: buf[k] == old(buf[k])
    ensures token.None? ==> Tokens(s, at) == [] && save == |s|
    ensures token.Some? ==> && at <= token.value < save && buf[token.value] != NUL
                            && Tokens(s, at) == [CStr(buf[token.value..])] + Tokens(s, save)
  {
    hide Torn, CStr, Tokens;
    var a := at;
    while buf[a] == '&'
      invariant at <= a <= |s|
      invariant forall k | at <= k < a :: s[k] == '&'
      decreases |s| - a
    {
      a := a + 1;
    }
    if buf[a] == NUL {
      NoTokens(buf[..], s, at);
      return None, a;
    }
    var n := a;
    while buf[n] != '&' && buf[n] != NUL
      invariant a <= n <= |s|
      invariant forall k | a <= k < n :: s[k] != '&'
      decreases |s| - n
    {
      n := n + 1;
    }
    save := n;
    ghost var mem := buf[..];
    if buf[n] == '&' {
      buf[n] := NUL;
      save := n + 1;
    }
    TokenCut(mem, s, at, a, n, buf[..]);
    return Some(a), save;
  }

  /** A text field: `NULL`, or a copy on the heap. */
  datatype Copied = Null | Heap(id: nat, text: string)

  function Seen(p: Copied): Option<string> {
    if p == Null then None else Some(p.text)
  }

  ghost predicate Owned(p: Copied, live: set<nat>) {
    p.Heap? ==> p.id in live
  }

  ghost predicate Apart(p: Copied, q: Copied) {
    p.Heap? && q.Heap? ==> p.id != q.id
  }

  function Ids(p: Copied): set<nat> {
    if p == Null then {} else {p.id}
  }

  /** The heap strings given out from one moment to a later one. */
  function Between(first: nat, next: nat): set<nat> {
    if first < next then Between(first, next - 1) + {next - 1} else {}
  }

  lemma {:induction false} BetweenIs(first: nat, next: nat)
    ensures forall i :: i in Between(first, next) <==> first <= i < next
    ensures |Between(first, next)| == (if first <= next then next - first else 0)
  {
    if first < next {
      BetweenIs(first, next - 1);
    }
  }

  lemma BetweenStep(n: nat)
    ensures Between(n, n) == {} && Between(n, n + 1) == {n}
  {
    BetweenIs(n, n + 1);
  }

  lemma BetweenJoin(a: nat, b: nat, c: nat)
    requires a <= b <= c
    ensures Between(a, b) + Between(b, c) == Between(a, c)
  {
    hide Between;
    BetweenIs(a, b);
    BetweenIs(b, c);
    BetweenIs(a, c);
  }

  predicate IsText(n: Name) {
    n.Key? || n.Value? || n.OrderBy? || n.Sort?
  }

  /** How many of the parameters are copied to the heap. */
  function TextCount(pairs: seq<Pair>): nat {
    if pairs == [] then 0 else (if IsText(pairs[0].name) then 1 else 0) + TextCount(pairs[1..])
  }

  lemma {:induction false} TextCountTogether(a: seq<Pair>, b: seq<Pair>)
    ensures TextCount(a + b) == TextCount(a) + TextCount(b)
  {
    if a == [] {
      assert a + b == b;
    } else {
      TextCountTogether(a[1..], b);
      assert (a + b)[1..] == a[1..] + b;
    }
  }

  function One(v: Option<string>): nat {
    if v.Some? then 1 else 0
  }

  /** How many different text parameters there are. */
  function DistinctTexts(pairs: seq<Pair>): nat {
    One(Last(pairs, Key)) + One(Last(pairs, Value)) + One(Last(pairs, OrderBy)) + One(Last(pairs, Sort))
  }

  function TextsIn(q: Fields): nat {
    One(q.key) + One(q.value) + One(q.orderby) + One(q.sort)
  }

  lemma DistinctTextsSet(pairs: seq<Pair>)
    ensures TextsIn(SetAll(Defaults, pairs)) == DistinctTexts(pairs)
  {
    hide SetAll, Last;
    LastWins(Defaults, pairs, Key);
    LastWins(Defaults, pairs, Value);
    LastWins(Defaults, pairs, OrderBy);
    LastWins(Defaults, pairs, Sort);
  }

  lemma IdsApart(p: Copied, q: Copied, live: set<nat>)
    requires Apart(p, q) && Owned(p, live) && Owned(q, live)
    ensures Ids(p) !! Ids(q) && Ids(p) + Ids(q) <= live
    ensures |Ids(p)| == One(Seen(p)) && |Ids(q)| == One(Seen(q))
  {}

  lemma FourSets(a: set<nat>, b: set<nat>, c: set<nat>, d: set<nat>)
    requires a !! b && a !! c && a !! d && b !! c && b !! d && c !! d
    ensures |a + b + c + d| == |a| + |b| + |c| + |d|
  {
    assert |a + b| == |a| + |b|;
    assert |a + b + c| == |a + b| + |c|;
  }

  class Query {
    var id: nat
    var offset: nat
    var limit: nat
    var multi: nat
    var key: Copied
    var value: Copied
    var orderby: Copied
    var sort: Copied
    var next: nat           // what `strdup` gives out next
    var live: set<nat>      // given out and not freed
    var misused: bool       // something was freed that was not live

    ghost function Now(): Fields
      reads this
    {
      Fields(id, offset, limit, multi, Seen(key), Seen(value), Seen(orderby), Seen(sort))
    }

    ghost function Held(): set<nat>
      reads this
    {
      Ids(key) + Ids(value) + Ids(orderby) + Ids(sort)
    }

    /** Every text field owns a live copy of its own. */
    ghost predicate Valid()
      reads this
    {
      && !misused && (forall i | i in live :: i < next)
      && Owned(key, live) && Owned(value, live) && Owned(orderby, live) && Owned(sort, live)
      && Apart(key, value) && Apart(key, orderby) && Apart(key, sort)
      && Apart(value, orderby) && Apart(value, sort) && Apart(orderby, sort)
    }

    lemma HeldSize()
      requires Valid()
      ensures |Held()| == TextsIn(Now()) && Held() <= live
    {
      hide Ids, Apart, Owned, Seen, One;
      IdsApart(key, value, live);
      IdsApart(key, orderby, live);
      IdsApart(key, sort, live);
      IdsApart(value, orderby, live);
      IdsApart(value, sort, live);
      IdsApart(orderby, sort, live);
      FourSets(Ids(key), Ids(value), Ids(orderby), Ids(sort));
    }

    constructor ()
      ensures Valid() && Now() == Defaults && live == {}
    {
      id, offset, limit, multi := 0, 0, 10, 0;
      key, value, orderby, sort := Null, Null, Null, Null;
      next, live, misused := 0, {}, false;
    }

    /** `strdup` */
    method StrDup(text: string) returns (p: Copied)
      modifies `next, `live
      ensures p == Heap(old(next), text) && next == old(next) + 1 && live == old(live) + {old(next)}
    {
      p := Heap(next, text);
      next, live := next + 1, live + {next};
    }

    /** `free` */
    method Release(p: Copied)
      modifies `live, `misused
      ensures live == old(live) - Ids(p) && misused == (old(misused) || !Owned(p, old(live)))
    {
      if p.Heap? {
        misused := misused || p.id !in live;
        live := live - {p.id};
      }
    }

    /** The defaults; what the text fields held is not freed. */
    method Reset()
      requires !misused && forall i | i in live :: i < next
      modifies `id, `offset, `limit, `multi, `key, `value, `orderby, `sort
      ensures Valid() && Now() == Defaults && Held() == {}
    {
      id, offset, limit, multi := 0, 0, 10, 0;
      key, value, orderby, sort := Null, Null, Null, Null;
    }

    /** The field of a name, read from a value. */
    method Assign(name: Name, text: string)
      requires Valid()
      modifies this
      ensures Valid() && Now() == Set(old(Now()), Pair(name, text))
      ensures next == old(next) + (if IsText(name) then 1 else 0) && live == old(live) + Between(old(next), next)
    {
      hide Strtoull, Strtol, ToUnsigned, Between;
      BetweenStep(next);
      match name
      case Limit => limit := ToUnsigned(Strtol(text));
      case Offset => offset := Strtoull(text);
      case Id => id := Strtoull(text);
      case Multi => multi := ToUnsigned(Strtol(text));
      case Key => key := StrDup(text);
      case Value => value := StrDup(text);
      case OrderBy => orderby := StrDup(text);
      case Sort => sort := StrDup(text);
    }

    /** One turn of the loop: a parameter, cut at its first `=`. */
    method SetFrom(parameter: string)
      requires Valid()
      modifies this
      ensures Valid() && Now() == SetAll(old(Now()), PairsOf([parameter]))
      ensures next == old(next) + TextCount(PairsOf([parameter])) && live == old(live) + Between(old(next), next)
    {
      hide Set, SetAll, PairsOf, NameOf, TextCount, Between;
      BetweenStep(next);
      var delimiter := MemChr(parameter, '=');
      PairsOfOne(parameter, Now());
      if delimiter.Some? {
        var name := NameOf(parameter[..delimiter.value]);
        if name.Some? {
          Assign(name.value, parameter[delimiter.value + 1..]);
        }
      }
    }
  }

  lemma PairsOfOne(p: string, q: Fields)
    ensures SetAll(q, PairsOf([p])) == if PairOf(p).Some? then Set(q, PairOf(p).value) else q
    ensures TextCount(PairsOf([p])) == if PairOf(p).Some? && IsText(PairOf(p).value.name) then 1 else 0
  {
    hide Set, PairOf;
    assert [p][1..] == [] && PairsOf([]) == [];
    if PairOf(p).Some? {
      assert PairsOf([p]) == [PairOf(p).value] && [PairOf(p).value][1..] == [];
    }
    if PairOf(p).Some? {
      SetOne(q, PairOf(p).value);
    }
  }

  datatype Code = Ok | Error

  /** `wrd_app_parse_query_string` */
  method ParseQueryString(query: Query?, query_string: array?<char>) returns (code: Code)
    requires query_string != null ==> NUL in query_string[..]
    requires query != null ==> !query.misused && forall i | i in query.live :: i < query.next
    modifies query, query_string
    ensures code == if query == null then Error else Ok
    ensures query != null ==>
      var s := if query_string == null then "" else CStr(old(query_string[..]));
      && query.Valid() && query.Now() == Parse(s)
      && query.next == old(query.next) + TextCount(PairsOf(Tokens(s, 0)))
      && query.live == old(query.live) + Between(old(query.next), query.next)
    ensures query != null && query_string != null ==>
      var s := CStr(old(query_string[..]));
      forall k | 0 <= k < query_string.Length ::
        query_string[k] == if k < |s| then Torn(s, k) else old(query_string[k])
  {
    hide SetAll, PairsOf, Tokens, CStr, Torn, Parse, TextCount, Between;
    if query == null {
      return Error;
    }
    query.Reset();
    BetweenStep(query.next);
    if query_string == null || query_string[0] == NUL {
      NothingToParse(if query_string == null then [NUL] else query_string[..]);
      return Ok;
    }
    ghost var s := CStr(query_string[..]);
    StartOf(query_string[..]);
    var parameter, saveptr := StrTokR(query_string, 0, s);
    ghost var rest := Tokens(s, 0);
    ParseIs(s);
    while parameter != None
      invariant Tokenising(query_string[..], s, saveptr) && query.Valid() && old(query.next) <= query.next
      invariant query.next + TextCount(PairsOf(rest)) == old(query.next) + TextCount(PairsOf(Tokens(s, 0)))
      invariant query.live == old(query.live) + Between(old(query.next), query.next)
      invariant forall k | |s| <= k < query_string.Length :: query_string[k] == old(query_string[k])
      invariant SetAll(query.Now(), PairsOf(rest)) == Parse(s)
      invariant parameter == None ==> rest == [] && saveptr == |s|
      invariant parameter != None ==> && parameter.value < saveptr
                                      && rest == [CStr(query_string[parameter.value..])] + Tokens(s, saveptr)
      decreases |s| - saveptr, if parameter == None then 0 else 1
    {
      ghost var before := query.next;
      query.SetFrom(CStr(query_string[parameter.value..]));
      BetweenJoin(old(query.next), before, query.next);
      OneParameter(CStr(query_string[parameter.value..]), Tokens(s, saveptr));
      rest := Tokens(s, saveptr);
      parameter, saveptr := StrTokR(query_string, saveptr, s);
    }
    return Ok;
  }

  lemma NothingToParse(mem: string)
    requires mem != "" && mem[0] == NUL
    ensures CStr(mem) == "" && Parse("") == Defaults && TextCount(PairsOf(Tokens("", 0))) == 0
  {}

  lemma StartOf(mem: string)
    requires NUL in mem
    ensures Tokenising(mem, CStr(mem), 0)
  {}

  lemma ParseIs(s: string)
    ensures Parse(s) == SetAll(Defaults, PairsOf(Tokens(s, 0)))
    ensures (forall q :: SetAll(q, PairsOf([])) == q) && TextCount(PairsOf([])) == 0
  {}

  lemma OneParameter(p: string, rest: seq<string>)
    ensures forall q :: SetAll(q, PairsOf([p] + rest)) == SetAll(SetAll(q, PairsOf([p])), PairsOf(rest))
    ensures TextCount(PairsOf([p] + rest)) == TextCount(PairsOf([p])) + TextCount(PairsOf(rest))
  {
    TextCountTogether(PairsOf([p]), PairsOf(rest));
    hide SetAll, PairOf;
    assert ([p] + rest)[1..] == rest && [p][1..] == [] && PairsOf([]) == [];
    assert PairsOf([p] + rest) == PairsOf([p]) + PairsOf(rest);
    forall q ensures SetAll(q, PairsOf([p] + rest)) == SetAll(SetAll(q, PairsOf([p])), PairsOf(rest)) {
      SetAllTogether(q, PairsOf([p]), PairsOf(rest));
    }
  }

  /** `wrd_app_free_query`: exactly the copies held are freed, each once; a second call finds none to free. */
  method FreeQuery(query: Query?) returns (code: Code)
    requires query != null ==> query.Valid()
    modifies query
    ensures code == if query == null then Error else Ok
    ensures query != null ==>
      && query.Valid() && query.Held() == {} && query.live == old(query.live) - old(query.Held())
      && query.Now() == old(query.Now()).(key := None, value := None, orderby := None, sort := None)
  {
    if query == null {
      return Error;
    }
    query.Release(query.key);
    query.Release(query.value);
    query.Release(query.orderby);
    query.Release(query.sort);
    query.key, query.value, query.orderby, query.sort := Null, Null, Null, Null;
    return Ok;
  }

  /**
   * What every route of the application does with its query: parse and, in the end, free. On the heap it
   * leaves one copy for each text parameter beyond the first of its name.
   */
  method ParseAndFree(query: Query, query_string: array<char>)
    requires NUL in query_string[..] && !query.misused && forall i | i in query.live :: i < query.next
    modifies query, query_string
    ensures query.Valid() && query.Held() == {}
    ensures var pairs := PairsOf(Tokens(CStr(old(query_string[..])), 0));
      |query.live| == |old(query.live)| + TextCount(pairs) - DistinctTexts(pairs)
  {
    hide PairsOf, Tokens, CStr, TextCount, DistinctTexts, TextsIn, Parse, Torn;
    ghost var s := CStr(query_string[..]);
    var code := ParseQueryString(query, query_string);
    ParseIs(s);
    DistinctTextsSet(PairsOf(Tokens(s, 0)));
    BetweenIs(old(query.next), query.next);
    query.HeldSize();
    code := FreeQuery(query);
  }
}
