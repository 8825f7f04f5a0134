/**
 * Configuration (src/conf.c): defaults, a file read through SQLite, the environment on top, and who owns
 * each string across repeated loads and closes. The twenty fields stand in the order of their names in
 * src/warudo.h; the source repeats one macro per name, which is written here as a loop over the names.
 */
module Config {
  import opened CStrings
  import opened Decimal

  const FIELDS := 20

  datatype Pointer = Null | Literal(text: string) | Heap(id: nat, copy: string)
  datatype Cell = Text(at: Pointer) | Number(n: int)
  datatype Letter = Unset | Default | Loaded | Env
  datatype Field = Field(cell: Cell, letter: Letter)

  /** What a reader of the configuration sees. */
  datatype Value = Str(text: string) | Int(n: int)

  /** What `malloc` has given out, and whether anything was freed that was not live. */
  datatype Store = Store(next: nat, live: set<nat>, misused: bool)

  function Defaults(): (cells: seq<Cell>)
    ensures |cells| == FIELDS
  {
    [
      Text(Literal("file:warudo.db?hctree=1")),
      Number(0),
      Text(Null),
      Number(1024),
      Number(64),
      Number(1),
      Number(4096),
      Number(1),
      Number(6251),
      Number(1),
      Text(Literal("/var/run/warudo.pid")),
      Text(Literal("auto")),
      Number(30),
      Number(100),
      Text(Null),
      Number(0),
      Text(Null),
      Text(Null),
      Number(443),
      Number(0)
    ]
  }

  /** `WRD_DB_PATH`, `WRD_ACCESS_ORIGIN`, `WRD_PID_FILE`, `WRD_WORKER_PROCESSES`, `WRD_DOCUMENT_ROOT`, the TLS paths. */
  predicate IsText(i: nat) {
    i == 0 || i == 2 || i == 10 || i == 11 || i == 14 || i == 16 || i == 17
  }

  lemma DefaultsFit(i: nat)
    requires i < FIELDS
    ensures Defaults()[i].Text? <==> IsText(i)
    ensures Defaults()[i].Text? ==> !Defaults()[i].at.Heap?
  {}

  /** What `SELECT data ->> …` gives for a name: no row, or a column of some type. */
  datatype Column = NoRow | SqlNull | SqlInteger(n: int) | SqlOther(text: string)

  /** What `file_path` leads to. */
  datatype Source = NoPath | Failing(why: Failure) | Empty | Valid(column: nat -> Column)

  /** Why a file could not be read, or not be loaded into SQLite. */
  datatype Failure = WRD_FILE_ERROR | WRD_MEMORY_ERROR | WRD_DB_INIT_ERROR | WRD_DB_OPEN_ERROR | WRD_DB_ERROR

  type Environment = nat -> Option<string>

  datatype Code = WRD_OK | WRD_DEFAULT | WRD_ERROR | Failed(why: Failure)

  /** Conversion to a 32-bit `int`. */
  function ToInt(n: int): (r: int)
    ensures -0x8000_0000 <= r < 0x8000_0000
    ensures -0x8000_0000 <= n < 0x8000_0000 ==> r == n
    ensures (n - r) % 0x1_0000_0000 == 0
  {
    (n + 0x8000_0000) % 0x1_0000_0000 - 0x8000_0000
  }

  function ShowInt(n: int): string {
    if n < 0 then ['-'] + Show(-n) else Show(n)
  }

  /** The value `wrd_load_string` or `wrd_load_integer` finds usable. */
  function FromFile(i: nat, c: Column): Option<Value> {
    if IsText(i) then
      match c
      case NoRow => None
      case SqlNull => None
      case SqlInteger(n) => Some(Str(ShowInt(n)))
      case SqlOther(t) => if t == "" then None else Some(Str(CStr(t)))
    else
      if c.SqlInteger? then Some(Int(ToInt(c.n))) else None
  }

  /** `strdup` and `atoi`. */
  function FromEnv(i: nat, v: Option<string>): Option<Value> {
    if v.None? then None
    else if IsText(i) then Some(Str(v.value))
    else Some(Int(ToInt(Strtol(v.value))))
  }

  /** What is seen in a field; nothing for a `NULL` string. */
  function Seen(c: Cell): Option<Value> {
    match c
    case Number(n) => Some(Int(n))
    case Text(Null) => None
    case Text(Literal(t)) => Some(Str(t))
    case Text(Heap(_, t)) => Some(Str(t))
  }

  // ---------- the operations, on values ----------

  datatype State = State(loaded: bool, fields: seq<Field>, store: Store)

  /** A value put into a field; a string is copied to the heap. */
  function Put(v: Value, letter: Letter, store: Store): (Field, Store) {
    match v
    case Str(t) =>
      (Field(Text(Heap(store.next, t)), letter), Store(store.next + 1, store.live + {store.next}, store.misused))
    case Int(n) => (Field(Number(n), letter), store)
  }

  /** `LOAD_DB_CONFIG_…`: a name the file says nothing usable about gets the default letter. */
  function LoadField(i: nat, f: Field, c: Column, store: Store): (Field, Store) {
    var v := FromFile(i, c);
    if v.Some? then Put(v.value, Loaded, store) else (Field(f.cell, Default), store)
  }

  /** `LOAD_ENV_CONFIG_…`: an unset variable leaves field and letter alone. */
  function EnvField(i: nat, f: Field, e: Option<string>, store: Store): (Field, Store) {
    var v := FromEnv(i, e);
    if v.Some? then Put(v.value, Env, store) else (f, store)
  }

  /** `free`: anything but a live heap string is misuse. */
  function Release(p: Pointer, store: Store): Store {
    if p.Heap? && p.id in store.live then Store(store.next, store.live - {p.id}, store.misused)
    else Store(store.next, store.live, true)
  }

  /** `FREE_CONFIG_STRING` */
  function FreeField(f: Field, store: Store): (Field, Store) {
    if f.cell.Text? && f.cell.at != Null && f.letter != Default then
      (Field(Text(Null), f.letter), Release(f.cell.at, store))
    else
      (f, store)
  }

  /** The first `n` names loaded from the file. */
  function LoadFile(s: State, column: nat -> Column, n: nat): (r: State)
    requires n <= |s.fields|
    ensures |r.fields| == |s.fields| && r.loaded == s.loaded
  {
    if n == 0 then s
    else
      var before := LoadFile(s, column, n - 1);
      var (f, store) := LoadField(n - 1, before.fields[n - 1], column(n - 1), before.store);
      before.(fields := before.fields[n - 1 := f], store := store)
  }

  function LoadEnv(s: State, env: Environment, n: nat): (r: State)
    requires n <= |s.fields|
    ensures |r.fields| == |s.fields| && r.loaded == s.loaded
  {
    if n == 0 then s
    else
      var before := LoadEnv(s, env, n - 1);
      var (f, store) := EnvField(n - 1, before.fields[n - 1], env(n - 1), before.store);
      before.(fields := before.fields[n - 1 := f], store := store)
  }

  function FreeAll(s: State, n: nat): (r: State)
    requires n <= |s.fields|
    ensures |r.fields| == |s.fields| && r.loaded == s.loaded
  {
    if n == 0 then s
    else
      var before := FreeAll(s, n - 1);
      var (f, store) := FreeField(before.fields[n - 1], before.store);
      before.(fields := before.fields[n - 1 := f], store := store)
  }

  function InitDefaults(store: Store): (r: State)
    ensures |r.fields| == FIELDS
  {
    State(false, seq(FIELDS, i requires 0 <= i < FIELDS => Field(Defaults()[i], Default)), store)
  }

  function Close(s: State): (r: State)
    ensures |r.fields| == |s.fields|
  {
    if s.loaded then FreeAll(s.(loaded := false), |s.fields|) else s
  }

  /** `wrd_config_init`: the new state, and its result. */
  function Load(s: State, source: Source, env: Environment): (r: (State, Code))
    ensures |r.0.fields| == FIELDS
  {
    var reset := InitDefaults(Close(s).store);
    match source
    case NoPath => (reset.(loaded := true), WRD_DEFAULT)
    case Failing(why) => (reset, Failed(why))
    case Empty => (reset.(loaded := true), WRD_DEFAULT)
    case Valid(column) =>
      (LoadEnv(LoadFile(reset, column, FIELDS), env, FIELDS).(loaded := true), WRD_OK)
  }

  // ---------- the operations, in place ----------

  class Warudo {
    var loaded: bool
    var fields: seq<Field>
    var store: Store
    var hasApp: bool            // `app` is not NULL
    var hasAppData: bool
    var routesCount: nat
    var requestsCount: nat
    var timingCount: nat
    var timingEndCount: nat

    ghost function Now(): State
      reads this
    {
      State(loaded, fields, store)
    }

    /** A zeroed structure. */
    constructor ()
      ensures Now() == Zeroed()
    {
      loaded := false;
      fields := seq(FIELDS, i requires 0 <= i < FIELDS => Field(if IsText(i) then Text(Null) else Number(0), Unset));
      store := Store(0, {}, false);
      hasApp, hasAppData := false, false;
      routesCount, requestsCount, timingCount, timingEndCount := 0, 0, 0, 0;
    }

    /** No application, and nothing counted yet. */
    ghost predicate Restarted()
      reads this
    {
      !hasApp && !hasAppData && routesCount == 0 && requestsCount == 0 && timingCount == 0 && timingEndCount == 0
    }

    method SetDefaults()
      modifies this
      ensures Now() == InitDefaults(old(store)) && Restarted()
    {
      hasApp, hasAppData := false, false;
      routesCount, requestsCount, timingCount, timingEndCount := 0, 0, 0, 0;
      loaded := false;
      fields := seq(FIELDS, i requires 0 <= i < FIELDS => Field(Defaults()[i], Default));
    }

    method ReadFile(column: nat -> Column)
      requires |fields| == FIELDS
      modifies `fields, `store
      ensures Now() == LoadFile(old(Now()), column, FIELDS)
    {
      var i := 0;
      while i < FIELDS
        invariant 0 <= i <= FIELDS && |fields| == FIELDS
        invariant Now() == LoadFile(old(Now()), column, i)
      {
        var (f, s) := LoadField(i, fields[i], column(i), store);
        fields, store := fields[i := f], s;
        i := i + 1;
      }
    }

    method ReadEnv(env: Environment)
      requires |fields| == FIELDS
      modifies `fields, `store
      ensures Now() == LoadEnv(old(Now()), env, FIELDS)
    {
      var i := 0;
      while i < FIELDS
        invariant 0 <= i <= FIELDS && |fields| == FIELDS
        invariant Now() == LoadEnv(old(Now()), env, i)
      {
        var (f, s) := EnvField(i, fields[i], env(i), store);
        fields, store := fields[i := f], s;
        i := i + 1;
      }
    }

    method CloseConfig() returns (code: Code)
      requires |fields| == FIELDS
      modifies `loaded, `fields, `store
      ensures code == if old(loaded) then WRD_OK else WRD_ERROR
      ensures Now() == Close(old(Now()))
    {
      if !loaded {
        return WRD_ERROR;
      }
      loaded := false;
      ghost var was := Now();
      var i := 0;
      while i < FIELDS
        invariant 0 <= i <= FIELDS && |fields| == FIELDS
        invariant Now() == FreeAll(was, i)
      {
        var (f, s) := FreeField(fields[i], store);
        fields, store := fields[i := f], s;
        i := i + 1;
      }
      return WRD_OK;
    }

    method Init(source: Source, env: Environment) returns (code: Code)
      requires |fields| == FIELDS
      modifies this
      ensures (Now(), code) == Load(old(Now()), source, env) && Restarted()
    {
      hide LoadFile, LoadEnv, FreeAll, InitDefaults;
      if loaded {
        var closed := CloseConfig();
      }
      if !loaded {
        SetDefaults();
      }
      match source
      case NoPath =>
        loaded := true;
        return WRD_DEFAULT;
      case Failing(why) =>
        return Failed(why);
      case Empty =>
        loaded := true;
        return WRD_DEFAULT;
      case Valid(column) =>
        ReadFile(column);
        ReadEnv(env);
        loaded := true;
        return WRD_OK;
    }
  }

  function Zeroed(): State {
    State(false,
          seq(FIELDS, i requires 0 <= i < FIELDS => Field(if IsText(i) then Text(Null) else Number(0), Unset)),
          Store(0, {}, false))
  }

  // ---------- layering ----------

  /** The value a field is to have: environment over usable file value over default. */
  function Layered(i: nat, c: Column, e: Option<string>): Option<Value>
    requires i < FIELDS
  {
    if FromEnv(i, e).Some? then FromEnv(i, e)
    else if FromFile(i, c).Some? then FromFile(i, c)
    else Seen(Defaults()[i])
  }

  function Origin(i: nat, c: Column, e: Option<string>): Letter {
    if FromEnv(i, e).Some? then Env else if FromFile(i, c).Some? then Loaded else Default
  }

  lemma {:induction false} FileLayer(s: State, column: nat -> Column, n: nat, i: nat)
    requires i < |s.fields| && n <= |s.fields|
    ensures i >= n ==> LoadFile(s, column, n).fields[i] == s.fields[i]
    ensures var f := LoadFile(s, column, n).fields[i];
            var v := FromFile(i, column(i));
            i < n ==> if v.Some? then Seen(f.cell) == v && f.letter == Loaded
                      else f.cell == s.fields[i].cell && f.letter == Default
  {
    hide FromFile;
    if n > 0 {
      FileLayer(s, column, n - 1, i);
    }
  }

  lemma {:induction false} EnvLayer(s: State, env: Environment, n: nat, i: nat)
    requires i < |s.fields| && n <= |s.fields|
    ensures var f := LoadEnv(s, env, n).fields[i];
            var v := FromEnv(i, env(i));
            if i < n && v.Some? then Seen(f.cell) == v && f.letter == Env else f == s.fields[i]
  {
    hide FromEnv;
    if n > 0 {
      EnvLayer(s, env, n - 1, i);
    }
  }

  /** After a valid file, every field has the layered value and its letter says where it came from. */
  lemma LoadLayers(s: State, column: nat -> Column, env: Environment, i: nat)
    requires i < FIELDS
    ensures var (t, code) := Load(s, Valid(column), env);
            && code == WRD_OK && t.loaded
            && Seen(t.fields[i].cell) == Layered(i, column(i), env(i))
            && t.fields[i].letter == Origin(i, column(i), env(i))
  {
    hide FromFile, FromEnv, LoadFile, LoadEnv, Close, Seen, Defaults;
    var begin := InitDefaults(Close(s).store);
    FileLayer(begin, column, FIELDS, i);
    EnvLayer(LoadFile(begin, column, FIELDS), env, FIELDS, i);
  }

  // The same over the raw inputs.

  /** What the readme and the headers of the server promise for a field that nothing sets. */
  function DefaultValues(): (r: seq<Option<Value>>)
    ensures |r| == FIELDS
  {
    [
      Some(Str("file:warudo.db?hctree=1")), // db_path
      Some(Int(0)), // log_level
      None, // access_origin
      Some(Int(1024)), // listen_backlog
      Some(Int(64)), // max_columns
      Some(Int(1)), // net_buffer_size
      Some(Int(4096)), // net_headers_buffer_size
      Some(Int(1)), // net_input_buffer_size
      Some(Int(6251)), // port
      Some(Int(1)), // timing
      Some(Str("/var/run/warudo.pid")), // pid_file
      Some(Str("auto")), // worker_processes
      Some(Int(30)), // keep_alive_timeout
      Some(Int(100)), // keep_alive_max
      None, // document_root
      Some(Int(0)), // tls_enabled
      None, // tls_cert_path
      None, // tls_key_path
      Some(Int(443)), // tls_port
      Some(Int(0)) // hsts_max_age
    ]
  }

  lemma DefaultsAre(i: nat)
    requires i < FIELDS
    ensures Seen(Defaults()[i]) == DefaultValues()[i]
    ensures IsText(i) <==> i in [0, 2, 10, 11, 14, 16, 17]
  {}

  /** A field no variable is set for: what the file says of it, if that is of its kind, and else the default. */
  lemma FileValue(s: State, column: nat -> Column, env: Environment, i: nat)
    requires i < FIELDS && env(i) == None
    ensures var f := Load(s, Valid(column), env).0.fields[i];
      match column(i)
      case SqlInteger(n) =>
        && f.letter == Loaded
        && (IsText(i) && n >= 0 ==> Seen(f.cell) == Some(Str(Show(n))))
        && (IsText(i) && n < 0 ==> Seen(f.cell) == Some(Str("-" + Show(0 - n))))
        && (!IsText(i) && -2147483648 <= n <= 2147483647 ==> Seen(f.cell) == Some(Int(n)))
      case SqlOther(t) =>
        && (IsText(i) && t != "" && NulFree(t) ==> Seen(f.cell) == Some(Str(t)) && f.letter == Loaded)
        && (!IsText(i) || t == "" ==> Seen(f.cell) == DefaultValues()[i] && f.letter == Default)
      case _ => Seen(f.cell) == DefaultValues()[i] && f.letter == Default
  {
    hide Load, Seen, IsText, Defaults, DefaultValues;
    LoadLayers(s, column, env, i);
    DefaultsAre(i);
    if column(i).SqlOther? && NulFree(column(i).text) {
      CStrId(column(i).text);
    }
  }

  /** A field a variable is set for: its text, or the number it spells, whatever the file says. */
  lemma EnvValue(s: State, column: nat -> Column, env: Environment, i: nat, sign: string, n: nat, rest: string)
    requires i < FIELDS && env(i).Some? && sign in ["", "+", "-"]
    requires n <= (if sign == "-" then 2147483648 else 2147483647) && (rest == "" || rest[0] !in DIGITS)
    ensures var f := Load(s, Valid(column), env).0.fields[i];
      && f.letter == Env
      && (IsText(i) ==> Seen(f.cell) == Some(Str(env(i).value)))
      && (!IsText(i) && env(i).value == sign + Show(n) + rest ==>
            Seen(f.cell) == Some(Int(if sign == "-" then 0 - n else n)))
  {
    hide Load, Seen, IsText, Defaults, Strtol, Show;
    LoadLayers(s, column, env, i);
    StrtolIs("", sign, n, rest);
    assert "" + (sign + Show(n) + rest) == sign + Show(n) + rest;
  }

  /** Without a usable file the environment is not looked at: every field is its default. */
  lemma NoFileNoEnvironment(s: State, source: Source, env: Environment, i: nat)
    requires i < FIELDS && !source.Valid?
    ensures var (t, code) := Load(s, source, env);
            && t.loaded == (source.NoPath? || source.Empty?)
            && code == (if t.loaded then WRD_DEFAULT else Failed(source.why))
            && t.fields[i] == Field(Defaults()[i], Default)
  {}

  /** A variable that is set takes effect exactly if a valid file has been read, or if it says what the default says. */
  lemma EnvironmentIff(s: State, source: Source, env: Environment, i: nat)
    requires i < FIELDS && FromEnv(i, env(i)).Some?
    ensures Seen(Load(s, source, env).0.fields[i].cell) == FromEnv(i, env(i)) <==>
      source.Valid? || FromEnv(i, env(i)) == Seen(Defaults()[i])
  {
    hide Load, FromEnv, FromFile, Defaults;
    if source.Valid? {
      LoadLayers(s, source.column, env, i);
    } else {
      NoFileNoEnvironment(s, source, env, i);
    }
  }

  const PORT := 8

  /** `WRD_PORT=8080` and an empty file, or none: the server keeps its default port. */
  lemma PortIgnored(s: State, source: Source, env: Environment)
    requires env(PORT) == Some("8080") && (source.Empty? || source.NoPath?)
    ensures FromEnv(PORT, env(PORT)) == Some(Int(8080))
    ensures Seen(Load(s, source, env).0.fields[PORT].cell) == Some(Int(6251))
  {
    hide Load, Strtol, ToInt;
    NoFileNoEnvironment(s, source, env, PORT);
    ReadPort();
    assert ToInt(8080) == 8080;
  }

  lemma ReadPort()
    ensures Strtol("8080") == 8080
  {
    assert "8080"[1..] == "080" && "080"[1..] == "80" && "80"[1..] == "0" && "0"[1..] == "";
    assert ReadDigits("", 8080) == 8080 && ReadDigits("0", 808) == 8080 && ReadDigits("80", 80) == 8080;
    assert ReadDigits("080", 8) == 8080 && ReadDigits("8080", 0) == 8080;
  }

  // ---------- ownership ----------

  predicate Holds(f: Field) {
    f.cell.Text? && f.cell.at.Heap?
  }

  /** The heap strings fields hold are live, each held by one field, and nothing has been misused. */
  ghost predicate HeapSound(s: State) {
    && !s.store.misused
    && (forall id | id in s.store.live :: id < s.store.next)
    && (forall i | 0 <= i < |s.fields| && Holds(s.fields[i]) :: s.fields[i].cell.at.id in s.store.live)
    && (forall i, j | 0 <= i < j < |s.fields| && Holds(s.fields[i]) && Holds(s.fields[j]) ::
          s.fields[i].cell.at.id != s.fields[j].cell.at.id)
  }

  /** A field whose letter tells who owns its string. */
  predicate LetterTells(i: nat, f: Field)
    requires i < FIELDS
  {
    && f.letter != Unset
    && (f.cell.Text? <==> IsText(i))
    && (IsText(i) ==> (f.letter != Default <==> Holds(f)))
    && (f.letter == Default ==> f.cell == Defaults()[i])
  }

  ghost predicate LettersTell(s: State) {
    |s.fields| == FIELDS && forall i | 0 <= i < FIELDS :: LetterTells(i, s.fields[i])
  }

  /** What every sequence of loads and closes keeps. */
  ghost predicate Sound(s: State) {
    && |s.fields| == FIELDS && HeapSound(s)
    && if s.loaded then LettersTell(s) else forall i | 0 <= i < FIELDS :: !Holds(s.fields[i])
  }

  /** A field that has been given a fresh value, or has not changed. */
  lemma PutKeeps(s: State, i: nat, v: Value, letter: Letter)
    requires i < |s.fields| && HeapSound(s)
    ensures var (f, store) := Put(v, letter, s.store);
            HeapSound(s.(fields := s.fields[i := f], store := store))
  {}

  lemma {:induction false} LoadFileKeeps(s: State, column: nat -> Column, n: nat)
    requires HeapSound(s) && LettersTell(s) && n <= FIELDS
    requires forall i | 0 <= i < FIELDS :: s.fields[i].letter == Default
    ensures HeapSound(LoadFile(s, column, n)) && LettersTell(LoadFile(s, column, n))
  {
    hide FromFile, HeapSound, Defaults;
    if n > 0 {
      var before := LoadFile(s, column, n - 1);
      LoadFileKeeps(s, column, n - 1);
      FileLayer(s, column, n - 1, n - 1);
      var v := FromFile(n - 1, column(n - 1));
      TypedFile(n - 1, column(n - 1));
      if v.Some? {
        PutKeeps(before, n - 1, v.value, Loaded);
      } else {
        assert LoadFile(s, column, n).fields == before.fields;
      }
    }
  }

  lemma TypedFile(i: nat, c: Column)
    ensures FromFile(i, c).Some? ==> (FromFile(i, c).value.Str? <==> IsText(i))
  {}

  lemma TypedEnv(i: nat, e: Option<string>)
    ensures FromEnv(i, e).Some? ==> (FromEnv(i, e).value.Str? <==> IsText(i))
  {}

  lemma {:induction false} LoadEnvKeeps(s: State, env: Environment, n: nat)
    requires HeapSound(s) && LettersTell(s) && n <= FIELDS
    ensures HeapSound(LoadEnv(s, env, n)) && LettersTell(LoadEnv(s, env, n))
  {
    hide FromEnv, HeapSound, Defaults;
    if n > 0 {
      var before := LoadEnv(s, env, n - 1);
      LoadEnvKeeps(s, env, n - 1);
      TypedEnv(n - 1, env(n - 1));
      var v := FromEnv(n - 1, env(n - 1));
      if v.Some? {
        PutKeeps(before, n - 1, v.value, Env);
      } else {
        assert LoadEnv(s, env, n).fields == before.fields;
      }
    }
  }

  /** The strings the first `n` fields hold. */
  function Held(fields: seq<Field>, n: nat): set<nat>
    requires n <= |fields|
  {
    set i | 0 <= i < n && Holds(fields[i]) :: fields[i].cell.at.id
  }

  function HeldBy(f: Field): (r: set<nat>)
    ensures |r| == if Holds(f) then 1 else 0
  {
    if Holds(f) then {f.cell.at.id} else {}
  }

  lemma HeldNext(fields: seq<Field>, n: nat)
    requires n < |fields|
    ensures Held(fields, n + 1) == Held(fields, n) + HeldBy(fields[n])
  {
    var r := HeldBy(fields[n]);
    forall id ensures id in Held(fields, n + 1) <==> id in Held(fields, n) || id in r {
      if i :| 0 <= i < n + 1 && Holds(fields[i]) && fields[i].cell.at.id == id {
        assert i == n || id in Held(fields, n);
      }
    }
  }

  /** Freeing one field of a sound state. */
  lemma FreeOne(s: State, i: nat)
    requires HeapSound(s) && i < |s.fields| && i < FIELDS && LetterTells(i, s.fields[i])
    ensures var (f, store) := FreeField(s.fields[i], s.store);
            && HeapSound(s.(fields := s.fields[i := f], store := store)) && !Holds(f)
            && store.live == s.store.live - HeldBy(s.fields[i])
            && store.next == s.store.next
  {
    DefaultsFit(i);
  }

  /** Closing frees exactly the strings held, and leaves the rest of the heap alone. */
  lemma {:induction false} FreeAllFrees(s: State, n: nat)
    requires HeapSound(s) && LettersTell(s) && n <= FIELDS
    ensures var t := FreeAll(s, n);
            && HeapSound(t) && t.store.live == s.store.live - Held(s.fields, n) && t.store.next == s.store.next
            && (forall i | 0 <= i < n :: !Holds(t.fields[i]))
            && (forall i | n <= i < FIELDS :: t.fields[i] == s.fields[i])
  {
    hide Held, HeldBy, Holds, HeapSound, LetterTells, FreeField;
    if n == 0 {
      HeldNone(s.fields);
    } else {
      FreeAllFrees(s, n - 1);
      HeldNext(s.fields, n - 1);
      FreeOne(FreeAll(s, n - 1), n - 1);
    }
  }

  datatype Call = LoadIt(source: Source, env: Environment) | CloseIt

  function Step(s: State, call: Call): State {
    match call
    case LoadIt(source, env) => Load(s, source, env).0
    case CloseIt => Close(s)
  }

  function Run(s: State, calls: seq<Call>): State {
    if calls == [] then s else Step(Run(s, calls[..|calls| - 1]), calls[|calls| - 1])
  }

  lemma CloseKeeps(s: State)
    requires Sound(s)
    ensures Sound(Close(s)) && !Close(s).loaded
    ensures Close(s).store.live == if s.loaded then s.store.live - Held(s.fields, FIELDS) else s.store.live
  {
    hide FreeAll;
    if s.loaded {
      FreeAllFrees(s.(loaded := false), FIELDS);
    }
  }

  lemma DefaultsKeep(store: Store)
    requires !store.misused && forall id | id in store.live :: id < store.next
    ensures HeapSound(InitDefaults(store)) && LettersTell(InitDefaults(store))
    ensures forall i | 0 <= i < FIELDS :: InitDefaults(store).fields[i].letter == Default
    ensures forall i | 0 <= i < FIELDS :: !Holds(InitDefaults(store).fields[i])
  {
    hide Defaults, IsText;
    forall i | 0 <= i < FIELDS ensures LetterTells(i, InitDefaults(store).fields[i]) {
      DefaultsFit(i);
    }
    forall i | 0 <= i < FIELDS ensures !Holds(InitDefaults(store).fields[i]) {
      DefaultsFit(i);
    }
  }

  lemma LoadKeeps(s: State, source: Source, env: Environment)
    requires Sound(s)
    ensures Sound(Load(s, source, env).0)
  {
    hide LoadFile, LoadEnv, Close, InitDefaults, LetterTells, Holds;
    CloseKeeps(s);
    var begin := InitDefaults(Close(s).store);
    DefaultsKeep(Close(s).store);
    if source.Valid? {
      LoadFileKeeps(begin, source.column, FIELDS);
      LoadEnvKeeps(LoadFile(begin, source.column, FIELDS), env, FIELDS);
    }
  }

  /**
   * Over any sequence of loads and closes: nothing but a live heap string is ever freed, so no default and
   * no string twice; while loaded, a string field has a non-default letter exactly when it holds a heap
   * copy of its own; when not loaded no field points into the heap.
   */
  lemma {:induction false} RunsAreSound(calls: seq<Call>)
    ensures Sound(Run(Zeroed(), calls))
  {
    hide Load, Close, Sound;
    if calls == [] {
      ZeroedIsSound();
    } else {
      var before := Run(Zeroed(), calls[..|calls| - 1]);
      RunsAreSound(calls[..|calls| - 1]);
      match calls[|calls| - 1]
      case LoadIt(source, env) => LoadKeeps(before, source, env);
      case CloseIt => CloseKeeps(before);
    }
  }

  lemma ZeroedIsSound()
    ensures Sound(Zeroed())
  {}

  /** What counts as misuse: freeing a string twice, or anything that was never given out. */
  lemma FreeIsJudged(p: Pointer, store: Store)
    ensures p.Heap? ==> Release(p, Release(p, store)).misused
    ensures !p.Heap? || p.id !in store.live ==> Release(p, store).misused
    ensures store.misused ==> Release(p, store).misused
  {}

  // ---------- how many heap strings are left behind ----------

  function FileSets(column: nat -> Column): nat -> bool {
    (i: nat) => FromFile(i, column(i)).Some?
  }

  function EnvSets(env: Environment): nat -> bool {
    (i: nat) => FromEnv(i, env(i)).Some?
  }

  function Either(p: nat -> bool, q: nat -> bool): nat -> bool {
    (i: nat) => p(i) || q(i)
  }

  function Both(p: nat -> bool, q: nat -> bool): nat -> bool {
    (i: nat) => p(i) && q(i)
  }

  /** How many of the first `n` string fields satisfy a predicate. */
  function Texts(p: nat -> bool, n: nat): nat {
    if n == 0 then 0 else Texts(p, n - 1) + if IsText(n - 1) && p(n - 1) then 1 else 0
  }

  lemma PutAllocates(s: State, v: Value, letter: Letter)
    requires HeapSound(s)
    ensures |Put(v, letter, s.store).1.live| == |s.store.live| + if v.Str? then 1 else 0
  {
    assert s.store.next !in s.store.live;
  }

  lemma {:induction false} FileAllocates(s: State, column: nat -> Column, n: nat)
    requires HeapSound(s) && LettersTell(s) && n <= FIELDS
    requires forall i | 0 <= i < FIELDS :: s.fields[i].letter == Default
    ensures |LoadFile(s, column, n).store.live| == |s.store.live| + Texts(FileSets(column), n)
  {
    hide FromFile, LetterTells, HeapSound, Put;
    if n > 0 {
      FileAllocates(s, column, n - 1);
      LoadFileKeeps(s, column, n - 1);
      TypedFile(n - 1, column(n - 1));
      PutAllocates(LoadFile(s, column, n - 1), FromFile(n - 1, column(n - 1)).GetOr(Int(0)), Loaded);
    }
  }

  lemma {:induction false} EnvAllocates(s: State, env: Environment, n: nat)
    requires HeapSound(s) && LettersTell(s) && n <= FIELDS
    ensures |LoadEnv(s, env, n).store.live| == |s.store.live| + Texts(EnvSets(env), n)
  {
    hide FromEnv, LetterTells, HeapSound, Put;
    if n > 0 {
      EnvAllocates(s, env, n - 1);
      LoadEnvKeeps(s, env, n - 1);
      TypedEnv(n - 1, env(n - 1));
      PutAllocates(LoadEnv(s, env, n - 1), FromEnv(n - 1, env(n - 1)).GetOr(Int(0)), Env);
    }
  }

  ghost predicate Apart(fields: seq<Field>) {
    forall i, j | 0 <= i < j < |fields| && Holds(fields[i]) && Holds(fields[j]) ::
      fields[i].cell.at.id != fields[j].cell.at.id
  }

  lemma NotHeldBefore(fields: seq<Field>, n: nat)
    requires n < |fields| && Apart(fields)
    ensures Held(fields, n) !! HeldBy(fields[n])
  {}

  lemma {:induction false} HeldCount(fields: seq<Field>, p: nat -> bool, n: nat)
    requires n <= |fields| && Apart(fields)
    requires forall i | 0 <= i < n :: Holds(fields[i]) <==> IsText(i) && p(i)
    ensures |Held(fields, n)| == Texts(p, n)
  {
    hide Held, HeldBy, Holds, Apart, IsText;
    if n == 0 {
      HeldNone(fields);
    } else {
      HeldCount(fields, p, n - 1);
      HeldNext(fields, n - 1);
      NotHeldBefore(fields, n - 1);
    }
  }

  lemma HeldNone(fields: seq<Field>)
    ensures Held(fields, 0) == {}
  {}

  lemma {:induction false} InclusionExclusion(p: nat -> bool, q: nat -> bool, n: nat)
    ensures Texts(p, n) + Texts(q, n) == Texts(Either(p, q), n) + Texts(Both(p, q), n)
  {
    if n > 0 {
      InclusionExclusion(p, q, n - 1);
    }
  }

  lemma LoadAllocates(s: State, column: nat -> Column, env: Environment)
    requires Sound(s)
    ensures |Load(s, Valid(column), env).0.store.live|
         == |Close(s).store.live| + Texts(FileSets(column), FIELDS) + Texts(EnvSets(env), FIELDS)
  {
    hide LoadFile, LoadEnv, Close, InitDefaults, LetterTells, Holds, Texts, FileSets, EnvSets;
    var begin := InitDefaults(Close(s).store);
    CloseKeeps(s);
    DefaultsKeep(Close(s).store);
    LoadFileKeeps(begin, column, FIELDS);
    FileAllocates(begin, column, FIELDS);
    EnvAllocates(LoadFile(begin, column, FIELDS), env, FIELDS);
    assert InitDefaults(Close(s).store).store == Close(s).store by { InitStore(Close(s).store); }
  }

  lemma InitStore(store: Store)
    ensures InitDefaults(store).store == store
  {}

  lemma HeldAfterLoad(s: State, column: nat -> Column, env: Environment)
    requires Sound(s)
    ensures var t := Load(s, Valid(column), env).0;
            && Held(t.fields, FIELDS) <= t.store.live
            && |Held(t.fields, FIELDS)| == Texts(Either(FileSets(column), EnvSets(env)), FIELDS)
  {
    hide Load, FromFile, FromEnv, Texts, Defaults;
    var t := Load(s, Valid(column), env).0;
    LoadKeeps(s, Valid(column), env);
    forall i | 0 <= i < FIELDS
      ensures Holds(t.fields[i]) <==> IsText(i) && Either(FileSets(column), EnvSets(env))(i)
    {
      LoadLayers(s, column, env, i);
    }
    HeldCount(t.fields, Either(FileSets(column), EnvSets(env)), FIELDS);
  }

  /**
   * A load and the close after it leave behind exactly the strings of the file that the environment
   * overrode: they are overwritten before anyone has freed them.
   */
  lemma LoadAndClose(s: State, column: nat -> Column, env: Environment)
    requires Sound(s)
    ensures |Close(Load(s, Valid(column), env).0).store.live|
         == |Close(s).store.live| + Texts(Both(FileSets(column), EnvSets(env)), FIELDS)
  {
    hide Load, Close, Sound, Held, Texts, FileSets, EnvSets, Both, Either;
    var full := Load(s, Valid(column), env).0;
    LoadAllocates(s, column, env);
    LoadKeeps(s, Valid(column), env);
    CloseKeeps(full);
    LoadLayers(s, column, env, 0);
    HeldAfterLoad(s, column, env);
    InclusionExclusion(FileSets(column), EnvSets(env), FIELDS);
  }
}
