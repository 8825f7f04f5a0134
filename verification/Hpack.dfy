/**
 * The header table of src/hpack.c: 61 static pairs, and a dynamic table that holds the last 64 pairs
 * emitted as literals, oldest first.
 */
module Hpack {
  import opened CStrings
  import Decimal

  const STATIC_SIZE: nat := 61
  const DYNAMIC_SIZE: nat := 64

  datatype Field = Field(name: string, value: string)

  function IndexOf(fs: seq<Field>, f: Field): Option<nat> {
    if fs == [] then None
    else if fs[0] == f then Some(0)
    else
      match IndexOf(fs[1..], f)
      case None => None
      case Some(i) => Some(i + 1)
  }

  lemma {:induction false} IndexOfIs(fs: seq<Field>, f: Field)
    ensures match IndexOf(fs, f)
      case None => f !in fs
      case Some(i) => i < |fs| && fs[i] == f && f !in fs[..i]
  {
    if fs != [] && fs[0] != f {
      IndexOfIs(fs[1..], f);
      match IndexOf(fs[1..], f)
      case None => assert fs == [fs[0]] + fs[1..];
      case Some(i) => assert fs[..i + 1] == [fs[0]] + fs[1..][..i];
    }
  }

  lemma FoundAt(fs: seq<Field>, f: Field, i: nat)
    requires i < |fs| && fs[i] == f && f !in fs[..i]
    ensures IndexOf(fs, f) == Some(i)
  {
    IndexOfIs(fs, f);
    assert f in fs;
    var k := IndexOf(fs, f).value;
    assert forall j | 0 <= j < k :: fs[j] == fs[..k][j];
    assert forall j | 0 <= j < i :: fs[j] == fs[..i][j];
  }

  // ---------- compression ----------

  /** A new pair goes to the end; a full table loses its oldest pair. */
  function Push(dynamic: seq<Field>, f: Field): seq<Field> {
    (if |dynamic| >= DYNAMIC_SIZE then dynamic[1..] else dynamic) + [f]
  }

  datatype Output = Index(n: nat) | Literal(f: Field)

  function Emit(statics: seq<Field>, dynamic: seq<Field>, f: Field): Output {
    match IndexOf(statics, f)
    case Some(i) => Index(i + 1)
    case None =>
      match IndexOf(dynamic, f)
      case Some(i) => Index(i + 1 + STATIC_SIZE)
      case None => Literal(f)
  }

  function Text(o: Output): string {
    match o
    case Index(n) => Decimal.Show(n)
    case Literal(f) => "0" + f.name + ": " + f.value
  }

  predicate IsNew(statics: seq<Field>, dynamic: seq<Field>, f: Field) {
    Emit(statics, dynamic, f).Literal?
  }

  function Next(statics: seq<Field>, dynamic: seq<Field>, f: Field): seq<Field> {
    if IsNew(statics, dynamic, f) then Push(dynamic, f) else dynamic
  }

  /** The dynamic table after a run of compressions, and the pairs emitted as literals. */
  function After(statics: seq<Field>, dynamic: seq<Field>, fs: seq<Field>): seq<Field>
    decreases |fs|
  {
    if fs == [] then dynamic else After(statics, Next(statics, dynamic, fs[0]), fs[1..])
  }

  function Literals(statics: seq<Field>, dynamic: seq<Field>, fs: seq<Field>): seq<Field>
    decreases |fs|
  {
    if fs == [] then []
    else
      (if IsNew(statics, dynamic, fs[0]) then [fs[0]] else [])
      + Literals(statics, Next(statics, dynamic, fs[0]), fs[1..])
  }

  function TakeLast(fs: seq<Field>, n: nat): seq<Field> {
    if |fs| <= n then fs else fs[|fs| - n..]
  }

  /** The table always holds the last pairs emitted as literals, as many as it can hold. */
  lemma {:induction false} TableIsRecentLiterals(statics: seq<Field>, dynamic: seq<Field>, fs: seq<Field>)
    requires |dynamic| <= DYNAMIC_SIZE
    ensures After(statics, dynamic, fs) == TakeLast(dynamic + Literals(statics, dynamic, fs), 64)
    decreases |fs|
  {
    hide IsNew, TakeLast, Push;
    if fs == [] {
      assert dynamic + [] == dynamic;
      assert TakeLast(dynamic, DYNAMIC_SIZE) == dynamic by { TakeAll(dynamic); }
    } else {
      var f, next := fs[0], Next(statics, dynamic, fs[0]);
      var rest := Literals(statics, next, fs[1..]);
      assert |Push(dynamic, f)| <= DYNAMIC_SIZE by { PushTakes(dynamic, f, rest); }
      TableIsRecentLiterals(statics, next, fs[1..]);
      if IsNew(statics, dynamic, f) {
        PushTakes(dynamic, f, rest);
      } else {
        assert [] + rest == rest;
      }
    }
  }

  lemma TakeAll(fs: seq<Field>)
    requires |fs| <= DYNAMIC_SIZE
    ensures TakeLast(fs, DYNAMIC_SIZE) == fs
  {}

  lemma PushTakes(dynamic: seq<Field>, f: Field, rest: seq<Field>)
    requires |dynamic| <= DYNAMIC_SIZE
    ensures |Push(dynamic, f)| <= DYNAMIC_SIZE
    ensures TakeLast(Push(dynamic, f) + rest, DYNAMIC_SIZE) == TakeLast(dynamic + ([f] + rest), DYNAMIC_SIZE)
  {
    var all := dynamic + ([f] + rest);
    if |dynamic| == DYNAMIC_SIZE {
      assert Push(dynamic, f) + rest == all[1..];
    } else {
      assert Push(dynamic, f) + rest == all;
    }
  }

  predicate Distinct(fs: seq<Field>) {
    forall i, j | 0 <= i < j < |fs| :: fs[i] != fs[j]
  }

  ghost predicate TableOk(statics: seq<Field>, dynamic: seq<Field>) {
    |dynamic| <= DYNAMIC_SIZE && Distinct(dynamic) && forall f | f in dynamic :: f !in statics
  }

  lemma NextOk(statics: seq<Field>, dynamic: seq<Field>, f: Field)
    requires TableOk(statics, dynamic)
    ensures TableOk(statics, Next(statics, dynamic, f))
  {
    IndexOfIs(statics, f);
    IndexOfIs(dynamic, f);
  }

  lemma {:induction false} AfterOk(statics: seq<Field>, dynamic: seq<Field>, fs: seq<Field>)
    requires TableOk(statics, dynamic)
    ensures TableOk(statics, After(statics, dynamic, fs))
    decreases |fs|
  {
    if fs != [] {
      NextOk(statics, dynamic, fs[0]);
      AfterOk(statics, Next(statics, dynamic, fs[0]), fs[1..]);
    }
  }

  // ---------- decompression of an index ----------

  /** The pair at an index, counted from 1 over both tables; none if it is past the end. */
  function Lookup(statics: seq<Field>, dynamic: seq<Field>, index: nat): Option<Field>
    requires |statics| == STATIC_SIZE && index > 0
  {
    if index <= STATIC_SIZE then Some(statics[index - 1])
    else if index - STATIC_SIZE <= |dynamic| then Some(dynamic[index - STATIC_SIZE - 1])
    else None
  }

  /** Indices 1 to 61 are the static pairs, those from 62 on the dynamic ones, the oldest first. */
  lemma LookupIs(statics: seq<Field>, dynamic: seq<Field>, index: nat)
    requires |statics| == 61 && index > 0
    ensures Lookup(statics, dynamic, index) ==
      if index <= 61 then Some(statics[index - 1])
      else if index < 62 + |dynamic| then Some(dynamic[index - 62])
      else None
  {}

  /** A pair that neither table holds is emitted in full: its name and its value can be read off the text. */
  lemma LiteralCarries(statics: seq<Field>, dynamic: seq<Field>, f: Field)
    requires f !in statics && f !in dynamic && ':' !in f.name
    ensures Split(Text(Emit(statics, dynamic, f)), ": ") == Cut("0" + f.name, f.value)
  {
    hide Split;
    IndexOfIs(statics, f);
    IndexOfIs(dynamic, f);
    var a := "0" + f.name;
    forall j: nat ensures !OccursAt(a, ": ", j) {
      assert j + 2 <= |a| ==> a[j] == a[j..j + 2][0] && a[j] in a;
    }
    BorderFreeAppend(a, ": ");
    CutIsSplit(a + ": " + f.value, ": ", Cut(a, f.value));
  }

  /** How many pairs of a table have been dropped when these literals have been added. */
  function Evicted(dynamic: seq<Field>, literals: nat): nat {
    if |dynamic| + literals <= DYNAMIC_SIZE then 0 else |dynamic| + literals - DYNAMIC_SIZE
  }

  /**
   * An emitted index stands for its pair at once, and after any further compressions: a static index
   * for ever, a dynamic one shifted down by the number of evictions, until the pair itself is evicted.
   * Shifted in the same way, it is the index that the pair is then compressed to.
   */
  lemma IndexStandsForPair(statics: seq<Field>, dynamic: seq<Field>, f: Field, later: seq<Field>)
    requires |statics| == STATIC_SIZE && TableOk(statics, dynamic) && Emit(statics, dynamic, f).Index?
    ensures var n := Emit(statics, dynamic, f).n;
      var dynamic' := After(statics, dynamic, later);
      var k := Evicted(dynamic, |Literals(statics, dynamic, later)|);
      && n > 0 && Lookup(statics, dynamic, n) == Some(f)
      && (n <= STATIC_SIZE ==> Lookup(statics, dynamic', n) == Some(f) && Emit(statics, dynamic', f) == Index(n))
      && (n > STATIC_SIZE + k ==>
            Lookup(statics, dynamic', n - k) == Some(f) && Emit(statics, dynamic', f) == Index(n - k))
      && (STATIC_SIZE < n <= STATIC_SIZE + k && f !in Literals(statics, dynamic, later) ==> f !in dynamic')
  {
    hide Literals, After, TableOk;
    var n := Emit(statics, dynamic, f).n;
    IndexOfIs(statics, f);
    IndexOfIs(dynamic, f);
    if n > STATIC_SIZE {
      Shifts(statics, dynamic, n - STATIC_SIZE - 1, later);
    }
  }

  lemma Shifts(statics: seq<Field>, dynamic: seq<Field>, i: nat, later: seq<Field>)
    requires TableOk(statics, dynamic) && i < |dynamic|
    ensures var dynamic', ls := After(statics, dynamic, later), Literals(statics, dynamic, later);
      var k := Evicted(dynamic, |ls|);
      && (i >= k ==>
            i - k < |dynamic'| && dynamic'[i - k] == dynamic[i] && IndexOf(dynamic', dynamic[i]) == Some(i - k))
      && (i < k && dynamic[i] !in ls ==> dynamic[i] !in dynamic')
  {
    hide Literals, After, TableOk;
    var dynamic', ls := After(statics, dynamic, later), Literals(statics, dynamic, later);
    var k := Evicted(dynamic, |ls|);
    TableSize(statics, dynamic);
    TableIsRecentLiterals(statics, dynamic, later);
    AfterOk(statics, dynamic, later);
    assert dynamic' == (dynamic + ls)[k..];
    if i >= k {
      assert dynamic'[i - k] == dynamic[i];
      FirstOfDistinct(statics, dynamic', i - k);
    } else if dynamic[i] !in ls {
      EvictedPair(statics, dynamic, ls, i, k);
    }
  }

  lemma TableSize(statics: seq<Field>, dynamic: seq<Field>)
    requires TableOk(statics, dynamic)
    ensures |dynamic| <= DYNAMIC_SIZE
  {}

  lemma FirstOfDistinct(statics: seq<Field>, dynamic: seq<Field>, i: nat)
    requires TableOk(statics, dynamic) && i < |dynamic|
    ensures IndexOf(dynamic, dynamic[i]) == Some(i)
  {
    FoundAt(dynamic, dynamic[i], i);
  }

  lemma EvictedPair(statics: seq<Field>, dynamic: seq<Field>, ls: seq<Field>, i: nat, k: nat)
    requires TableOk(statics, dynamic) && i < |dynamic| && i < k <= |dynamic + ls| && dynamic[i] !in ls
    ensures dynamic[i] !in (dynamic + ls)[k..]
  {
    var all := dynamic + ls;
    forall j | k <= j < |all| ensures all[j] != dynamic[i] {
      assert j < |dynamic| ==> all[j] == dynamic[j];
      assert j >= |dynamic| ==> all[j] in ls;
    }
  }

  // ---------- the code ----------

  class HeaderTable {
    const statics: seq<Field>
    const table: array<Field>
    var size: nat

    ghost predicate Valid()
      reads this
    {
      |statics| == STATIC_SIZE && table.Length == DYNAMIC_SIZE && size <= DYNAMIC_SIZE
    }

    ghost function Entries(): seq<Field>
      requires Valid()
      reads this, table
    {
      table[..size]
    }

    constructor (statics: seq<Field>)
      requires |statics| == STATIC_SIZE
      ensures Valid() && this.statics == statics && Entries() == [] && TableOk(statics, Entries())
    {
      this.statics := statics;
      table := new Field[DYNAMIC_SIZE](_ => Field("", ""));
      size := 0;
    }

    lemma PushIs(dynamic: seq<Field>, f: Field)
      requires |dynamic| <= DYNAMIC_SIZE
      ensures Push(dynamic, f) == (if |dynamic| == DYNAMIC_SIZE then dynamic[1..] else dynamic) + [f]
    {}

    /** The `memmove` of a full table. */
    method DropOldest()
      requires Valid() && size == DYNAMIC_SIZE
      modifies `size, table
      ensures Valid() && Entries() == old(Entries())[1..] && size == DYNAMIC_SIZE - 1
    {
      ghost var before := Entries();
      forall k | 0 <= k < DYNAMIC_SIZE - 1 {
        table[k] := table[k + 1];
      }
      size := size - 1;
      assert table[..size] == before[1..];
    }

    /** `wrd_add_header_to_dynamic_table` */
    method Add(f: Field)
      requires Valid()
      modifies this, table
      ensures Valid() && Entries() == Push(old(Entries()), f)
    {
      hide Push;
      PushIs(Entries(), f);
      if size >= DYNAMIC_SIZE {
        DropOldest();
      }
      ghost var kept := table[..size];
      table[size] := f;
      size := size + 1;
      assert table[..size] == kept + [f];
    }

    /** `wrd_compress_header` */
    method Compress(name: string, value: string) returns (output: string)
      requires Valid()
      modifies this, table
      ensures Valid()
      ensures output == Text(Emit(statics, old(Entries()), Field(name, value)))
      ensures Entries() == Next(statics, old(Entries()), Field(name, value))
    {
      hide IndexOf;
      var f := Field(name, value);
      ghost var before := Entries();
      for i := 0 to STATIC_SIZE
        invariant f !in statics[..i]
      {
        if name == statics[i].name && value == statics[i].value {
          FoundAt(statics, f, i);
          return Decimal.Show(i + 1);
        }
      }
      IndexOfIs(statics, f);
      assert statics[..STATIC_SIZE] == statics;
      for i := 0 to size
        invariant f !in before[..i]
      {
        if name == table[i].name && value == table[i].value {
          FoundAt(before, f, i);
          return Decimal.Show(i + 1 + STATIC_SIZE);
        }
      }
      IndexOfIs(before, f);
      assert before[..size] == before;
      Add(f);
      output := "0" + name + ": " + value;
    }

    /** `wrd_decompress_header`: the pair it copies out, if any. Without a number there is none. */
    method Decompress(input: string) returns (f: Option<Field>)
      requires Valid() && Taken(input)
      ensures f == if Decimal.StartsNumber(input) then Lookup(statics, Entries(), Decimal.Strtol(input)) else None
    {
      if !Decimal.StartsNumber(input) {
        return None;
      }
      var index := Decimal.Strtol(input);
      if index <= STATIC_SIZE {
        return Some(statics[index - 1]);
      }
      index := index - STATIC_SIZE;
      f := if index <= size then Some(table[index - 1]) else None;
    }
  }

  /** An index that was printed is read back as itself. */
  lemma PrintedIndex(statics: seq<Field>, dynamic: seq<Field>, f: Field)
    requires |statics| == STATIC_SIZE && TableOk(statics, dynamic) && Emit(statics, dynamic, f).Index?
    ensures var text := Text(Emit(statics, dynamic, f));
      var index := Decimal.Strtol(text);
      && Decimal.StartsNumber(text) && 0 < index <= STATIC_SIZE + DYNAMIC_SIZE
      && Lookup(statics, dynamic, index) == Some(f)
  {
    hide TableOk;
    var n := Emit(statics, dynamic, f).n;
    IndexOfIs(statics, f);
    IndexOfIs(dynamic, f);
    TableSize(statics, dynamic);
    Decimal.StrtolShow(n, "");
    Decimal.ShowStartsNumber(n);
    assert Decimal.Show(n) + "" == Decimal.Show(n);
  }

  const INT_MAX: int := 0x7fff_ffff

  /** What `Decompress` can take: no number, or an `int` from 1 on; below that the source leaves its tables. */
  predicate Taken(text: string) {
    Decimal.StartsNumber(text) ==> 0 < Decimal.Strtol(text) <= INT_MAX
  }

  /**
   * Of what `Compress` emits, exactly the indices can be taken, and the literals whose name starts with a
   * number above zero, which is then read as an index.
   */
  lemma EmittedIsTaken(statics: seq<Field>, dynamic: seq<Field>, f: Field)
    requires |statics| == STATIC_SIZE && TableOk(statics, dynamic)
    ensures Taken(Text(Emit(statics, dynamic, f))) <==>
      Emit(statics, dynamic, f).Index? || 0 < Decimal.ReadDigits(f.name, 0) <= INT_MAX
  {
    hide TableOk, Emit;
    if Emit(statics, dynamic, f).Index? {
      PrintedIndex(statics, dynamic, f);
    } else {
      LiteralIs(statics, dynamic, f);
      var rest := ": " + f.value;
      var text := "0" + f.name + ": " + f.value;
      assert text == ['0'] + (f.name + rest) && text[1..] == f.name + rest;
      assert rest[0] == ':' && !Decimal.IsDigit(':');
      Decimal.ReadDigitsStop(f.name, rest, 0);
      assert Decimal.ReadDigits(text, 0) == Decimal.ReadDigits(f.name + rest, 0);
    }
  }

  lemma LiteralIs(statics: seq<Field>, dynamic: seq<Field>, f: Field)
    ensures Emit(statics, dynamic, f).Literal? ==> Emit(statics, dynamic, f) == Literal(f)
  {}
}
