/**
 * The connection loop of src/worker.c over the network layer of src/net.c.
 *
 * The environment (accept, select, read, handshake, the route handlers) is a script; every statement
 * is about all scripts. `Run` lists the events of a run, `Server` is the code that makes them happen,
 * and `Watch` is an independent observer that knows only the rules of a connection.
 */
module Worker {
  import opened CStrings
  import opened Response
  import Http
  import Decimal

  // ---------- the environment ----------

  /** What the configuration fixes; `tlsReady` is the presence of the TLS context. */
  datatype Settings = Settings(
    tlsEnabled: bool, tlsReady: bool, twoSockets: bool, keepAliveTimeout: int, keepAliveMax: int)

  /** One turn on an open connection: the poll, the read, and what the route handler writes. */
  datatype Turn = Turn(ready: bool, read: Option<string>, head: string, body: string)

  /** A connection that `accept` returns, and all that happens to it. */
  datatype Incoming = Incoming(
    fd: int, tlsSocket: bool, firstByte: int, handshake: bool, early: Option<string>, redirect: string,
    turns: seq<Turn>, closes: bool)

  // ---------- what happens ----------

  datatype Event =
    | Accepted(fd: int)
    | Secured                                    // a TLS session is attached
    | Redirected(response: Response)
    | Dispatched(tls: bool)                      // a route handler runs
    | Answered(keep: bool, response: Response)
    | Released                                   // the TLS session is shut down and freed
    | Closed(fd: int)

  function ConnectionLine(keep: bool): string {
    if keep then "Connection: keep-alive\r\n" else "Connection: close\r\n"
  }

  const REDIRECT_BODY: string := "Redirecting to HTTPS."

  /** `wrd_should_keep_alive` */
  function ShouldKeepAlive(cfg: Settings, r: Http.Parsed): bool {
    if cfg.keepAliveTimeout <= 0 then false
    else
      var value := Http.HeaderValue(r.headers, "Connection");
      if value.Some? && Http.SameName(value.value, "close") then false
      else if value.Some? && Http.SameName(value.value, "keep-alive") then true
      else r.major == 1 && r.minor >= 1
  }

  /** A read overwrites the front of the input buffer and leaves the rest as it was. */
  function Overwrite(mem: string, bytes: string): string
    requires |bytes| <= |mem|
  {
    bytes + mem[|bytes|..]
  }

  lemma OverwriteIs(mem: string, bytes: string)
    requires |bytes| <= |mem|
    ensures |Overwrite(mem, bytes)| == |mem|
    ensures forall k | 0 <= k < |mem| :: Overwrite(mem, bytes)[k] == if k < |bytes| then bytes[k] else mem[k]
  {}

  predicate ReadFits(read: Option<string>, size: nat) {
    read.Some? ==> |read.value| <= size
  }

  predicate TurnsRead(turns: seq<Turn>, size: nat) {
    forall t | t in turns :: ReadFits(t.read, size)
  }

  /** The keep-alive loop, `served` requests having been answered: its events, and the input buffer. */
  function KeepAliveLoop(cfg: Settings, tls: bool, mem: string, turns: seq<Turn>, served: nat):
    (r: (seq<Event>, string))
    requires TurnsRead(turns, |mem|)
    ensures |r.1| == |mem|
    decreases |turns|
  {
    if turns == [] || !turns[0].ready || turns[0].read.GetOr("") == "" then ([], mem)
    else
      var t := turns[0];
      var bytes := t.read.value;
      var mem' := Overwrite(mem, bytes);
      var keep := ShouldKeepAlive(cfg, Http.Parse(mem', |bytes|).1) && served + 1 < cfg.keepAliveMax;
      var events := [Dispatched(tls), Answered(keep, Response(t.head + ConnectionLine(keep), t.body))];
      if keep then
        var rest := KeepAliveLoop(cfg, tls, mem', turns[1..], served + 1);
        (events + rest.0, rest.1)
      else
        (events, mem')
  }

  predicate IncomingOk(c: Incoming, size: nat) {
    c.fd > 0 && ReadFits(c.early, size) && TurnsRead(c.turns, size)
  }

  function IsTls(cfg: Settings, c: Incoming): bool {
    if cfg.twoSockets then c.tlsSocket else cfg.tlsEnabled
  }

  function RedirectEvents(c: Incoming): seq<Event> {
    [Accepted(c.fd), Redirected(Response(c.redirect + ConnectionLine(false), REDIRECT_BODY)), Closed(c.fd)]
  }

  function AfterEarly(c: Incoming, mem: string): (m: string)
    requires ReadFits(c.early, |mem|)
    ensures |m| == |mem|
  {
    if c.early.GetOr("") == "" then mem else Overwrite(mem, c.early.value)
  }

  /** One connection. */
  function Serve(cfg: Settings, c: Incoming, mem: string): (r: (seq<Event>, string))
    requires IncomingOk(c, |mem|)
    ensures |r.1| == |mem|
  {
    var tls := IsTls(cfg, c);
    if tls && cfg.tlsReady then
      if c.firstByte >= 0 && c.firstByte != 0x16 then (RedirectEvents(c), AfterEarly(c, mem))
      else if !c.handshake then ([Accepted(c.fd), Closed(c.fd)], mem)
      else
        var r := KeepAliveLoop(cfg, true, mem, c.turns, 0);
        ([Accepted(c.fd), Secured] + r.0 + [Released, Closed(c.fd)], r.1)
    else if cfg.tlsEnabled && !tls then (RedirectEvents(c), AfterEarly(c, mem))
    else
      var r := KeepAliveLoop(cfg, false, mem, c.turns, 0);
      ([Accepted(c.fd)] + r.0 + [Closed(c.fd)], r.1)
  }

  predicate ScriptOk(script: seq<Incoming>, size: nat) {
    forall c | c in script :: IncomingOk(c, size)
  }

  /** The events of each connection of a run. The run ends when `accept` fails. */
  function Run(cfg: Settings, script: seq<Incoming>, mem: string): seq<seq<Event>>
    requires ScriptOk(script, |mem|)
  {
    if script == [] then []
    else
      var r := Serve(cfg, script[0], mem);
      [r.0] + Run(cfg, script[1..], r.1)
  }

  function Flatten(events: seq<seq<Event>>): seq<Event> {
    if events == [] then [] else events[0] + Flatten(events[1..])
  }

  /** What a read with a complete head is parsed to depends on that read alone. */
  lemma ParseDependsOnRead(mem: string, mem': string, bytes: string, e: nat)
    requires |bytes| <= |mem| && |bytes| <= |mem'|
    requires FirstAt(bytes, Http.BLANK, e) && NulFree(bytes[..e + 4])
    ensures Http.Parse(Overwrite(mem, bytes), |bytes|) == Http.Parse(Overwrite(mem', bytes), |bytes|)
  {
    hide NoneBefore, Http.Parse;
    var m, m' := Overwrite(mem, bytes), Overwrite(mem', bytes);
    assert m[..|bytes|] == bytes && m'[..|bytes|] == bytes && m[..e + 4] == bytes[..e + 4];
    Http.LeftoversDoNotMatter(m, m', |bytes|, e);
  }

  // ---------- reads that the parser can take ----------

  /** Where a read succeeds, the parser's searches in the buffer it leaves end inside that buffer. */
  ghost predicate ReadSafe(mem: string, read: Option<string>)
    requires ReadFits(read, |mem|)
  {
    read.GetOr("") != "" ==> Http.Stops(Overwrite(mem, read.value), |read.value|)
  }

  /** ... and so do those of every turn that takes place. */
  ghost predicate LoopReadable(cfg: Settings, mem: string, turns: seq<Turn>, served: nat)
    requires TurnsRead(turns, |mem|)
    decreases |turns|
  {
    turns == [] || !turns[0].ready || turns[0].read.GetOr("") == "" ||
    (ReadSafe(mem, turns[0].read)
     && var bytes := turns[0].read.value;
        var mem' := Overwrite(mem, bytes);
        ShouldKeepAlive(cfg, Http.Parse(mem', |bytes|).1) && served + 1 < cfg.keepAliveMax ==>
          LoopReadable(cfg, mem', turns[1..], served + 1))
  }

  predicate IsRedirected(cfg: Settings, c: Incoming) {
    var tls := IsTls(cfg, c);
    if tls && cfg.tlsReady then c.firstByte >= 0 && c.firstByte != 0x16 else cfg.tlsEnabled && !tls
  }

  ghost predicate ServeReadable(cfg: Settings, c: Incoming, mem: string)
    requires IncomingOk(c, |mem|)
  {
    if IsRedirected(cfg, c) then ReadSafe(mem, c.early)
    else (IsTls(cfg, c) && cfg.tlsReady && !c.handshake) || LoopReadable(cfg, mem, c.turns, 0)
  }

  ghost predicate RunReadable(cfg: Settings, script: seq<Incoming>, mem: string)
    requires ScriptOk(script, |mem|)
  {
    script == [] ||
    (ServeReadable(cfg, script[0], mem) && RunReadable(cfg, script[1..], Serve(cfg, script[0], mem).1))
  }

  /** A read that fails, that holds an empty line, or, with `short`, that leaves the end of the buffer alone. */
  ghost predicate Taken(read: Option<string>, size: nat, short: bool) {
    read.GetOr("") == "" || if short then |read.value| < size else Contains(read.value, Http.BLANK)
  }

  ghost predicate Ended(mem: string, short: bool) {
    short ==> mem != "" && mem[|mem| - 1] == NUL
  }

  lemma TakenIsSafe(mem: string, read: Option<string>, short: bool)
    requires ReadFits(read, |mem|) && Taken(read, |mem|, short) && Ended(mem, short)
    ensures ReadSafe(mem, read)
    ensures read.GetOr("") != "" ==> Ended(Overwrite(mem, read.value), short)
  {
    hide Http.Stops;
    if read.GetOr("") != "" {
      var bytes := read.value;
      var mem' := Overwrite(mem, bytes);
      if short {
        assert mem'[|mem| - 1] == NUL;
        Http.StopsIff(mem', |bytes|);
      } else {
        var e: nat :| OccursAt(bytes, Http.BLANK, e);
        assert mem'[e..e + 4] == bytes[e..e + 4];
        Http.BlankStops(mem', |bytes|, e);
      }
    }
  }

  lemma {:induction false} LoopTaken(cfg: Settings, tls: bool, mem: string, turns: seq<Turn>, served: nat, short: bool)
    requires TurnsRead(turns, |mem|) && Ended(mem, short) && forall t | t in turns :: Taken(t.read, |mem|, short)
    ensures LoopReadable(cfg, mem, turns, served)
    ensures Ended(KeepAliveLoop(cfg, tls, mem, turns, served).1, short)
    decreases |turns|
  {
    hide ShouldKeepAlive, Http.Parse, Taken, Ended, Overwrite, Http.Stops;
    if turns == [] || !turns[0].ready || turns[0].read.GetOr("") == "" {
    } else {
      var mem' := Overwrite(mem, turns[0].read.value);
      assert turns[0] in turns;
      TakenIsSafe(mem, turns[0].read, short);
      OverwriteLength(mem, turns[0].read.value);
      LoopTaken(cfg, tls, mem', turns[1..], served + 1, short);
    }
  }

  ghost predicate AllTaken(script: seq<Incoming>, size: nat, short: bool) {
    forall c | c in script :: Taken(c.early, size, short) && forall t | t in c.turns :: Taken(t.read, size, short)
  }

  /**
   * The parser can take every read of a run if no read fills the buffer, which starts zeroed; and also,
   * full buffers or not, if every read that succeeds holds an empty line.
   */
  lemma {:induction false} RunTaken(cfg: Settings, script: seq<Incoming>, mem: string, short: bool)
    requires ScriptOk(script, |mem|) && AllTaken(script, |mem|, short) && Ended(mem, short)
    ensures RunReadable(cfg, script, mem)
    decreases |script|
  {
    hide KeepAliveLoop, LoopReadable, ReadSafe, Taken, Ended, Overwrite;
    if script != [] {
      var c := script[0];
      assert c in script;
      LoopTaken(cfg, true, mem, c.turns, 0, short);
      LoopTaken(cfg, false, mem, c.turns, 0, short);
      TakenIsSafe(mem, c.early, short);
      RunTaken(cfg, script[1..], Serve(cfg, c, mem).1, short);
    }
  }

  ghost predicate ReadsWithin(script: seq<Incoming>, m: nat) {
    forall c | c in script :: ReadFits(c.early, m) && TurnsRead(c.turns, m)
  }

  /**
   * For every configuration and every zeroed buffer: the searches stay inside it in all runs with reads of
   * at most `m` bytes exactly if `m` is less than its size.
   */
  lemma RunsStopIff(cfg: Settings, mem: string, m: nat)
    requires mem != "" && forall k | 0 <= k < |mem| :: mem[k] == NUL
    ensures (forall script | ScriptOk(script, |mem|) && ReadsWithin(script, m) :: RunReadable(cfg, script, mem))
        <==> m < |mem|
  {
    hide RunReadable;
    if m < |mem| {
      forall script | ScriptOk(script, |mem|) && ReadsWithin(script, m) ensures RunReadable(cfg, script, mem) {
        WithinIsTaken(script, |mem|, m);
        RunTaken(cfg, script, mem, true);
      }
    } else {
      var script := [FullRead(|mem|)];
      FullReadRuns(cfg, mem);
      assert ScriptOk(script, |mem|) && ReadsWithin(script, m);
      assert !RunReadable(cfg, script, mem);
    }
  }

  lemma WithinIsTaken(script: seq<Incoming>, size: nat, m: nat)
    requires ReadsWithin(script, m) && m < size
    ensures AllTaken(script, size, true)
  {
    forall c | c in script
      ensures Taken(c.early, size, true) && forall t | t in c.turns :: Taken(t.read, size, true)
    {
      assert ReadFits(c.early, m) && forall t | t in c.turns :: ReadFits(t.read, m);
    }
  }

  /** A connection whose first read fills the buffer with one unfinished line. */
  function FullRead(size: nat): Incoming {
    var read := Some(seq(size, _ => 'x'));
    Incoming(1, true, 0x16, true, read, "", [Turn(true, read, "", "")], true)
  }

  lemma FullReadRuns(cfg: Settings, mem: string)
    requires mem != ""
    ensures ScriptOk([FullRead(|mem|)], |mem|) && !RunReadable(cfg, [FullRead(|mem|)], mem)
  {
    hide Http.Stops, Http.Parse, ShouldKeepAlive;
    var c := FullRead(|mem|);
    var read := c.early.value;
    assert Overwrite(mem, read) == read;
    forall j: nat ensures !OccursAt(read, CRLF, j) {
      assert j + 2 <= |read| ==> read[j..j + 2][0] == 'x';
    }
    Http.NoBreakNoStop(read);
  }

  // ---------- the observer ----------

  datatype Phase =
    | Idle
    | Open(fd: int, tls: bool, released: bool, served: nat, pending: bool, closing: bool)

  function Limit(cfg: Settings): int {
    if cfg.keepAliveMax < 1 then 1 else cfg.keepAliveMax
  }

  /** The rules of a connection: is this event allowed now, and where does it lead? */
  function Watch(cfg: Settings, p: Phase, e: Event): Option<Phase> {
    match e
    case Accepted(fd) =>
      if p.Idle? then Some(Open(fd, false, false, 0, false, false)) else None
    case Secured =>
      if p.Open? && !p.tls && !p.released && !p.closing && p.served == 0 then Some(p.(tls := true)) else None
    case Redirected(_) =>
      if p.Open? && cfg.tlsEnabled && !p.tls && !p.released && !p.closing && !p.pending && p.served == 0 then
        Some(p.(closing := true))
      else None
    case Dispatched(tls) =>
      if p.Open? && !p.closing && !p.pending && !p.released && tls == p.tls && (cfg.tlsEnabled ==> tls)
         && p.served < Limit(cfg) then
        Some(p.(pending := true, served := p.served + 1))
      else None
    case Answered(keep, _) =>
      if p.Open? && p.pending then Some(p.(pending := false, closing := !keep)) else None
    case Released =>
      if p.Open? && p.tls && !p.pending then Some(p.(tls := false, released := true)) else None
    case Closed(fd) =>
      if p.Open? && p.fd == fd && !p.tls && !p.pending then Some(Idle) else None
  }

  function WatchAll(cfg: Settings, p: Phase, events: seq<Event>): Option<Phase>
    decreases |events|
  {
    if events == [] then Some(p)
    else
      match Watch(cfg, p, events[0])
      case None => None
      case Some(p') => WatchAll(cfg, p', events[1..])
  }

  lemma {:induction false} WatchAppend(cfg: Settings, p: Phase, a: seq<Event>, b: seq<Event>)
    ensures WatchAll(cfg, p, a + b) ==
      match WatchAll(cfg, p, a) case None => None case Some(q) => WatchAll(cfg, q, b)
    decreases |a|
  {
    if a == [] {
      assert a + b == b;
    } else {
      assert (a + b)[1..] == a[1..] + b;
      if Watch(cfg, p, a[0]).Some? {
        WatchAppend(cfg, Watch(cfg, p, a[0]).value, a[1..], b);
      }
    }
  }

  /** Nothing that is allowed as a whole has a forbidden beginning. */
  lemma WatchPrefix(cfg: Settings, p: Phase, events: seq<Event>, k: nat)
    requires k <= |events| && WatchAll(cfg, p, events).Some?
    ensures WatchAll(cfg, p, events[..k]).Some?
  {
    assert events == events[..k] + events[k..];
    WatchAppend(cfg, p, events[..k], events[k..]);
  }

  lemma {:induction false} LoopIsAllowed(cfg: Settings, tls: bool, mem: string, turns: seq<Turn>, served: nat, fd: int)
    requires TurnsRead(turns, |mem|) && (cfg.tlsEnabled ==> tls) && served < Limit(cfg)
    ensures var p := WatchAll(cfg, Open(fd, tls, false, served, false, false),
                              KeepAliveLoop(cfg, tls, mem, turns, served).0);
      && p.Some? && p.value.Open? && p.value.fd == fd && p.value.tls == tls && !p.value.pending && !p.value.released
    decreases |turns|
  {
    hide ShouldKeepAlive, Http.Parse, Overwrite;
    if turns == [] || !turns[0].ready || turns[0].read.GetOr("") == "" {
    } else {
      var events := KeepAliveLoop(cfg, tls, mem, turns, served).0;
      var p := Open(fd, tls, false, served, false, false);
      var keep := events[1].keep;
      var q := Open(fd, tls, false, served + 1, false, !keep);
      TwoEvents(cfg, p, events, q);
      if keep {
        var mem' := Overwrite(mem, turns[0].read.value);
        OverwriteLength(mem, turns[0].read.value);
        LoopIsAllowed(cfg, tls, mem', turns[1..], served + 1, fd);
        assert events[2..] == KeepAliveLoop(cfg, tls, mem', turns[1..], served + 1).0;
      } else {
        assert events[2..] == [];
      }
    }
  }

  lemma OverwriteLength(mem: string, bytes: string)
    requires |bytes| <= |mem|
    ensures |Overwrite(mem, bytes)| == |mem|
  {}

  lemma TwoEvents(cfg: Settings, p: Phase, events: seq<Event>, q: Phase)
    requires |events| >= 2 && Watch(cfg, p, events[0]).Some?
    requires Watch(cfg, Watch(cfg, p, events[0]).value, events[1]) == Some(q)
    ensures WatchAll(cfg, p, events) == WatchAll(cfg, q, events[2..])
  {
    assert events[1..][0] == events[1] && events[1..][1..] == events[2..];
  }

  /** What a successful initialisation leaves: a TLS context, or a TLS socket, only with TLS enabled. */
  predicate Initialised(cfg: Settings) {
    (cfg.tlsEnabled <==> cfg.tlsReady) && (cfg.twoSockets ==> cfg.tlsEnabled)
  }

  lemma ServeIsAllowed(cfg: Settings, c: Incoming, mem: string)
    requires Initialised(cfg) && IncomingOk(c, |mem|)
    ensures WatchAll(cfg, Idle, Serve(cfg, c, mem).0) == Some(Idle)
  {
    hide KeepAliveLoop;
    var tls := IsTls(cfg, c);
    var start := Open(c.fd, false, false, 0, false, false);
    if tls && cfg.tlsReady && !(c.firstByte >= 0 && c.firstByte != 0x16) && c.handshake {
      var r := KeepAliveLoop(cfg, true, mem, c.turns, 0).0;
      LoopIsAllowed(cfg, true, mem, c.turns, 0, c.fd);
      TwoEvents(cfg, Idle, [Accepted(c.fd), Secured], start.(tls := true));
      WatchAppend(cfg, Idle, [Accepted(c.fd), Secured], r);
      WatchAppend(cfg, Idle, [Accepted(c.fd), Secured] + r, [Released, Closed(c.fd)]);
      TwoEvents(cfg, WatchAll(cfg, start.(tls := true), r).value, [Released, Closed(c.fd)], Idle);
    } else if !(tls && cfg.tlsReady) && !(cfg.tlsEnabled && !tls) {
      var r := KeepAliveLoop(cfg, false, mem, c.turns, 0).0;
      LoopIsAllowed(cfg, false, mem, c.turns, 0, c.fd);
      assert WatchAll(cfg, Idle, [Accepted(c.fd)]) == Some(start);
      WatchAppend(cfg, Idle, [Accepted(c.fd)], r);
      WatchAppend(cfg, Idle, [Accepted(c.fd)] + r, [Closed(c.fd)]);
    } else if tls && cfg.tlsReady && !(c.firstByte >= 0 && c.firstByte != 0x16) {
      TwoEvents(cfg, Idle, [Accepted(c.fd), Closed(c.fd)], Idle);
    } else {
      TwoEvents(cfg, Idle, RedirectEvents(c), start.(closing := true));
      assert RedirectEvents(c)[2..] == [Closed(c.fd)];
    }
  }

  /** Every run, on every environment, keeps the rules; and it ends with no connection open. */
  lemma {:induction false} RunIsAllowed(cfg: Settings, script: seq<Incoming>, mem: string)
    requires Initialised(cfg) && ScriptOk(script, |mem|)
    ensures WatchAll(cfg, Idle, Flatten(Run(cfg, script, mem))) == Some(Idle)
    decreases |script|
  {
    hide Serve;
    if script != [] {
      assert script[0] in script;
      var r := Serve(cfg, script[0], mem);
      ServeIsAllowed(cfg, script[0], mem);
      RunIsAllowed(cfg, script[1..], r.1);
      WatchAppend(cfg, Idle, r.0, Flatten(Run(cfg, script[1..], r.1)));
      assert Run(cfg, script, mem)[1..] == Run(cfg, script[1..], r.1);
    }
  }

  // ---------- what the observer's rules mean ----------

  /** A handler runs only while a TLS session is attached, when TLS is enabled. */
  lemma {:induction false} TlsSafety(cfg: Settings, p: Phase, events: seq<Event>, k: nat)
    requires WatchAll(cfg, p, events).Some? && cfg.tlsEnabled && k < |events| && events[k].Dispatched?
    ensures var before := WatchAll(cfg, p, events[..k]);
      before.Some? && before.value.Open? && before.value.tls && events[k].tls
  {
    assert events == events[..k] + events[k..];
    WatchAppend(cfg, p, events[..k], events[k..]);
  }

  function CountClosed(events: seq<Event>, fd: int): nat {
    if events == [] then 0
    else CountClosed(events[1..], fd) + if events[0] == Closed(fd) then 1 else 0
  }

  function CountAccepted(events: seq<Event>, fd: int): nat {
    if events == [] then 0
    else CountAccepted(events[1..], fd) + if events[0] == Accepted(fd) then 1 else 0
  }

  function Holds(p: Phase, fd: int): nat {
    if p.Open? && p.fd == fd then 1 else 0
  }

  /** Descriptors are conserved: every accepted one is closed exactly once, or still open. */
  lemma {:induction false} ClosedOnce(cfg: Settings, p: Phase, events: seq<Event>, fd: int)
    requires WatchAll(cfg, p, events).Some?
    ensures CountAccepted(events, fd) + Holds(p, fd) ==
      CountClosed(events, fd) + Holds(WatchAll(cfg, p, events).value, fd)
    decreases |events|
  {
    if events != [] {
      ClosedOnce(cfg, Watch(cfg, p, events[0]).value, events[1..], fd);
    }
  }

  lemma ClosingEnds(cfg: Settings, p: Phase, events: seq<Event>, k: nat)
    requires WatchAll(cfg, p, events).Some? && p.Open? && p.closing && !p.pending && k < |events|
    requires forall i | 0 <= i < k :: !events[i].Closed?
    ensures events[k].Released? || events[k].Closed?
  {
    if |events| > 1 {
      assert events[1..][0] == events[1];
    }
  }

  /** A response marked close is the last on its connection: what follows is the release and the close. */
  lemma CloseIsLast(cfg: Settings, events: seq<Event>, j: nat, k: nat)
    requires WatchAll(cfg, Idle, events).Some? && j < k < |events|
    requires (events[j].Answered? && !events[j].keep) || events[j].Redirected?
    requires forall i | j < i < k :: !events[i].Closed?
    ensures events[k].Released? || events[k].Closed?
  {
    var a, b := events[..j], events[j..];
    assert events == a + b && b[0] == events[j] && b[1..][k - j - 1] == events[k];
    WatchAppend(cfg, Idle, a, b);
    var p := Watch(cfg, WatchAll(cfg, Idle, a).value, b[0]).value;
    assert forall i | 0 <= i < k - j - 1 :: b[1..][i] == events[j + 1 + i];
    ClosingEnds(cfg, p, b[1..], k - j - 1);
  }

  function Dispatches(events: seq<Event>): nat {
    if events == [] then 0 else Dispatches(events[1..]) + if events[0].Dispatched? then 1 else 0
  }

  lemma {:induction false} DispatchesAppend(a: seq<Event>, b: seq<Event>)
    ensures Dispatches(a + b) == Dispatches(a) + Dispatches(b)
  {
    if a == [] {
      assert a + b == b;
    } else {
      assert (a + b)[1..] == a[1..] + b;
      DispatchesAppend(a[1..], b);
    }
  }

  /** A request the parser rejects is never kept alive: version and headers were reset first. */
  lemma RejectedIsClosed(cfg: Settings, mem: string, n: nat)
    requires n <= |mem| && !Http.Parse(mem, n).0
    ensures !ShouldKeepAlive(cfg, Http.Parse(mem, n).1)
  {}

  /** Wherever a connection stands, a request the parser rejects is answered with close, and ends it. */
  lemma RejectedEnds(cfg: Settings, tls: bool, mem: string, turns: seq<Turn>, served: nat)
    requires TurnsRead(turns, |mem|) && turns != [] && turns[0].ready && turns[0].read.GetOr("") != ""
    requires var bytes := turns[0].read.value; !Http.Parse(Overwrite(mem, bytes), |bytes|).0
    ensures var t := turns[0];
      KeepAliveLoop(cfg, tls, mem, turns, served).0
      == [Dispatched(tls), Answered(false, Response(t.head + ConnectionLine(false), t.body))]
  {
    hide ShouldKeepAlive, Http.Parse;
    var bytes := turns[0].read.value;
    RejectedIsClosed(cfg, Overwrite(mem, bytes), |bytes|);
  }

  lemma {:induction false} LoopServesAtMost(cfg: Settings, tls: bool, mem: string, turns: seq<Turn>, served: nat)
    requires TurnsRead(turns, |mem|) && served < Limit(cfg)
    ensures served + Dispatches(KeepAliveLoop(cfg, tls, mem, turns, served).0) <= Limit(cfg)
    decreases |turns|
  {
    hide ShouldKeepAlive, Http.Parse, Overwrite, ConnectionLine;
    if turns == [] || !turns[0].ready || turns[0].read.GetOr("") == "" {
    } else {
      var events := KeepAliveLoop(cfg, tls, mem, turns, served).0;
      OverwriteLength(mem, turns[0].read.value);
      assert events[1..][0] == events[1] && events[1..][1..] == events[2..];
      assert Dispatches(events[1..]) == Dispatches(events[2..]);
      if events[1].keep {
        LoopServesAtMost(cfg, tls, Overwrite(mem, turns[0].read.value), turns[1..], served + 1);
        assert events[2..] == KeepAliveLoop(cfg, tls, Overwrite(mem, turns[0].read.value), turns[1..], served + 1).0;
      } else {
        assert events[2..] == [];
      }
    }
  }

  /** Every connection of every run keeps the rules and serves at most max(1, keep_alive_max) requests. */
  lemma {:induction false} EachConnection(cfg: Settings, script: seq<Incoming>, mem: string, i: nat)
    requires Initialised(cfg) && ScriptOk(script, |mem|) && i < |Run(cfg, script, mem)|
    ensures var events := Run(cfg, script, mem)[i];
      WatchAll(cfg, Idle, events) == Some(Idle) && Dispatches(events) <= Limit(cfg)
    decreases |script|
  {
    hide Serve;
    var c := script[0];
    assert c in script;
    if i == 0 {
      ServeIsAllowed(cfg, c, mem);
      ServesAtMost(cfg, c, mem);
    } else {
      EachConnection(cfg, script[1..], Serve(cfg, c, mem).1, i - 1);
    }
  }

  lemma ServesAtMost(cfg: Settings, c: Incoming, mem: string)
    requires IncomingOk(c, |mem|)
    ensures Dispatches(Serve(cfg, c, mem).0) <= Limit(cfg)
  {
    hide KeepAliveLoop, Dispatches;
    LoopServesAtMost(cfg, true, mem, c.turns, 0);
    LoopServesAtMost(cfg, false, mem, c.turns, 0);
    ServedWire(cfg, c, true, mem, []);
    ServedWire(cfg, c, false, mem, []);
    RedirectWire(c);
    NothingSent(c);
  }

  /**
   * Safety over every run: with TLS enabled every dispatch is made on a TLS session; and every
   * accepted descriptor has been closed as often as it was accepted when the run is over.
   */
  lemma RunsAreSafe(cfg: Settings, script: seq<Incoming>, mem: string)
    requires Initialised(cfg) && ScriptOk(script, |mem|)
    ensures var events := Flatten(Run(cfg, script, mem));
      && (forall k | 0 <= k < |events| && events[k].Dispatched? && cfg.tlsEnabled ::
            var before := WatchAll(cfg, Idle, events[..k]);
            before.Some? && before.value.Open? && before.value.tls && events[k].tls)
      && (forall fd :: CountAccepted(events, fd) == CountClosed(events, fd))
  {
    hide Run, Watch;
    var events := Flatten(Run(cfg, script, mem));
    RunIsAllowed(cfg, script, mem);
    forall k | 0 <= k < |events| && events[k].Dispatched? && cfg.tlsEnabled
      ensures var before := WatchAll(cfg, Idle, events[..k]);
        before.Some? && before.value.Open? && before.value.tls && events[k].tls
    {
      TlsSafety(cfg, Idle, events, k);
    }
    forall fd ensures CountAccepted(events, fd) == CountClosed(events, fd) {
      ClosedOnce(cfg, Idle, events, fd);
    }
  }

  /** The rules hold at every moment of a run, and an accepted descriptor is closed or is the one that is open. */
  lemma EveryMoment(cfg: Settings, script: seq<Incoming>, mem: string, k: nat, fd: int)
    requires Initialised(cfg) && ScriptOk(script, |mem|) && k <= |Flatten(Run(cfg, script, mem))|
    ensures var past := Flatten(Run(cfg, script, mem))[..k];
      var now := WatchAll(cfg, Idle, past);
      now.Some? && CountAccepted(past, fd) == CountClosed(past, fd) + Holds(now.value, fd)
  {
    hide Run, Watch;
    var events := Flatten(Run(cfg, script, mem));
    RunIsAllowed(cfg, script, mem);
    WatchPrefix(cfg, Idle, events, k);
    ClosedOnce(cfg, Idle, events[..k], fd);
  }

  // ---------- what is served ----------

  /** How many turns can be served: those before the first that is not ready or reads nothing. */
  function Active(turns: seq<Turn>): (n: nat)
    ensures n <= |turns|
    ensures forall i | 0 <= i < n :: turns[i].ready && turns[i].read.GetOr("") != ""
    ensures n < |turns| ==> !turns[n].ready || turns[n].read.GetOr("") == ""
  {
    if turns == [] || !turns[0].ready || turns[0].read.GetOr("") == "" then 0
    else
      assert forall i | 0 < i < |turns| :: turns[i] == turns[1..][i - 1];
      1 + Active(turns[1..])
  }

  /** The input buffer when turn `i` is read. */
  function BufferAt(mem: string, turns: seq<Turn>, i: nat): (m: string)
    requires i <= Active(turns) && TurnsRead(turns, |mem|)
    ensures |m| == |mem|
  {
    if i == 0 then mem
    else
      assert turns[i - 1] in turns;
      Overwrite(BufferAt(mem, turns, i - 1), turns[i - 1].read.value)
  }

  /** Whether turn `i` is kept alive, with `served` turns before the first. */
  predicate KeptAt(cfg: Settings, mem: string, turns: seq<Turn>, served: nat, i: nat)
    requires i < Active(turns) && TurnsRead(turns, |mem|)
  {
    var after := BufferAt(mem, turns, i + 1);
    ShouldKeepAlive(cfg, Http.Parse(after, |turns[i].read.value|).1) && served + i + 1 < cfg.keepAliveMax
  }

  /** The answer to a turn: what its handler writes, and the Connection header. */
  function AnswerTo(t: Turn, keep: bool): Event {
    Answered(keep, Response(t.head + (if keep then "Connection: keep-alive\r\n" else "Connection: close\r\n"), t.body))
  }

  /**
   * Exactly `k` turns have been dispatched and answered, in order; all but the last were kept alive, and the
   * last one was not, unless no turn is left that can be served.
   */
  ghost predicate Served(
    cfg: Settings, tls: bool, mem: string, turns: seq<Turn>, served: nat, k: nat, events: seq<Event>)
    requires TurnsRead(turns, |mem|)
  {
    && k <= Active(turns) && |events| == 2 * k
    && (forall i | 0 <= i < k ::
          events[2 * i] == Dispatched(tls)
          && events[2 * i + 1] == AnswerTo(turns[i], KeptAt(cfg, mem, turns, served, i)))
    && (forall i | 0 <= i < k - 1 :: KeptAt(cfg, mem, turns, served, i))
    && (k == Active(turns) || (k > 0 && !KeptAt(cfg, mem, turns, served, k - 1)))
  }

  lemma {:induction false} BufferOfRest(mem: string, turns: seq<Turn>, i: nat)
    requires 0 < i <= Active(turns) && TurnsRead(turns, |mem|)
    ensures turns[0] in turns && TurnsRead(turns[1..], |mem|) && i - 1 <= Active(turns[1..])
    ensures |turns[0].read.value| <= |mem|
    ensures BufferAt(mem, turns, i) == BufferAt(Overwrite(mem, turns[0].read.value), turns[1..], i - 1)
  {
    hide Overwrite;
    OverwriteLength(mem, turns[0].read.value);
    if i > 1 {
      BufferOfRest(mem, turns, i - 1);
    }
  }

  lemma {:induction false} KeptOfRest(cfg: Settings, mem: string, turns: seq<Turn>, served: nat, i: nat)
    requires 0 < i < Active(turns) && TurnsRead(turns, |mem|)
    ensures TurnsRead(turns[1..], |mem|) && i - 1 < Active(turns[1..]) && |turns[0].read.value| <= |mem|
    ensures KeptAt(cfg, mem, turns, served, i)
        <==> KeptAt(cfg, Overwrite(mem, turns[0].read.value), turns[1..], served + 1, i - 1)
  {
    hide Overwrite, ShouldKeepAlive, Http.Parse, BufferAt;
    BufferOfRest(mem, turns, i + 1);
    OverwriteLength(mem, turns[0].read.value);
  }

  lemma {:induction false} LoopServes(cfg: Settings, tls: bool, mem: string, turns: seq<Turn>, served: nat)
    returns (k: nat)
    requires TurnsRead(turns, |mem|)
    ensures Served(cfg, tls, mem, turns, served, k, KeepAliveLoop(cfg, tls, mem, turns, served).0)
    ensures k <= Active(turns) && KeepAliveLoop(cfg, tls, mem, turns, served).1 == BufferAt(mem, turns, k)
    decreases |turns|
  {
    hide Served, KeptAt, BufferAt, Overwrite, KeepAliveLoop;
    if Active(turns) == 0 {
      k := 0;
      ServedNothing(cfg, tls, mem, turns, served);
    } else {
      assert turns[0] in turns;
      var mem' := Overwrite(mem, turns[0].read.value);
      OverwriteLength(mem, turns[0].read.value);
      var rest := KeepAliveLoop(cfg, tls, mem', turns[1..], served + 1).0;
      var k' := LoopServes(cfg, tls, mem', turns[1..], served + 1);
      FirstTurn(cfg, tls, mem, turns, served);
      ServedMore(cfg, tls, mem, turns, served, k', rest);
      k := if KeptAt(cfg, mem, turns, served, 0) then k' + 1 else 1;
      BufferOfRest(mem, turns, k);
      BufferAtFirst(mem', turns[1..]);
    }
  }

  lemma {:induction false} BufferAtFirst(mem: string, turns: seq<Turn>)
    requires TurnsRead(turns, |mem|)
    ensures BufferAt(mem, turns, 0) == mem
  {}

  lemma {:induction false} ServedNothing(cfg: Settings, tls: bool, mem: string, turns: seq<Turn>, served: nat)
    requires TurnsRead(turns, |mem|) && Active(turns) == 0
    ensures Served(cfg, tls, mem, turns, served, 0, KeepAliveLoop(cfg, tls, mem, turns, served).0)
    ensures KeepAliveLoop(cfg, tls, mem, turns, served).1 == mem == BufferAt(mem, turns, 0)
  {}

  lemma {:induction false} FirstTurn(cfg: Settings, tls: bool, mem: string, turns: seq<Turn>, served: nat)
    requires TurnsRead(turns, |mem|) && Active(turns) > 0
    ensures turns[0] in turns && |turns[0].read.value| <= |mem|
    ensures |Overwrite(mem, turns[0].read.value)| == |mem| && TurnsRead(turns[1..], |mem|)
    ensures var keep := KeptAt(cfg, mem, turns, served, 0);
      var rest := KeepAliveLoop(cfg, tls, Overwrite(mem, turns[0].read.value), turns[1..], served + 1).0;
      KeepAliveLoop(cfg, tls, mem, turns, served).0
      == [Dispatched(tls), AnswerTo(turns[0], keep)] + if keep then rest else []
    ensures var mem' := Overwrite(mem, turns[0].read.value);
      KeepAliveLoop(cfg, tls, mem, turns, served).1 ==
      if KeptAt(cfg, mem, turns, served, 0) then KeepAliveLoop(cfg, tls, mem', turns[1..], served + 1).1 else mem'
  {
    hide ShouldKeepAlive, Http.Parse, Overwrite;
    assert turns[0] in turns;
    OverwriteLength(mem, turns[0].read.value);
    assert BufferAt(mem, turns, 1) == Overwrite(BufferAt(mem, turns, 0), turns[0].read.value);
  }

  /** A first turn, and what was served after it if it was kept alive. */
  lemma {:induction false} ServedMore(
    cfg: Settings, tls: bool, mem: string, turns: seq<Turn>, served: nat, k: nat, rest: seq<Event>)
    requires TurnsRead(turns, |mem|) && Active(turns) > 0 && |turns[0].read.value| <= |mem|
    requires var mem' := Overwrite(mem, turns[0].read.value);
      && |mem'| == |mem| && TurnsRead(turns[1..], |mem|)
      && Served(cfg, tls, mem', turns[1..], served + 1, k, rest)
    ensures var keep := KeptAt(cfg, mem, turns, served, 0);
      Served(cfg, tls, mem, turns, served, if keep then k + 1 else 1,
             [Dispatched(tls), AnswerTo(turns[0], keep)] + if keep then rest else [])
  {
    hide ShouldKeepAlive, KeptAt, BufferAt, Overwrite, AnswerTo;
    var keep := KeptAt(cfg, mem, turns, served, 0);
    var first := [Dispatched(tls), AnswerTo(turns[0], keep)];
    if keep {
      var all := first + rest;
      forall i | 0 < i < k + 1
        ensures all[2 * i] == Dispatched(tls)
        ensures all[2 * i + 1] == AnswerTo(turns[i], KeptAt(cfg, mem, turns, served, i))
        ensures i < k ==> KeptAt(cfg, mem, turns, served, i)
        ensures i == k ==> Active(turns) == k + 1 || !KeptAt(cfg, mem, turns, served, k)
      {
        KeptOfRest(cfg, mem, turns, served, i);
        assert all[2 * i] == rest[2 * (i - 1)] && all[2 * i + 1] == rest[2 * (i - 1) + 1];
        assert turns[i] == turns[1..][i - 1];
      }
    }
  }

  /** With TLS on, a plain connection, or one that does not begin as TLS does, is sent to HTTPS. */
  predicate MustRedirect(cfg: Settings, c: Incoming) {
    cfg.tlsEnabled && ((cfg.twoSockets && !c.tlsSocket) || (0 <= c.firstByte && c.firstByte != 22))
  }

  /** All that happens on a connection, the buffer being `mem` when it is accepted. */
  ghost predicate Happens(cfg: Settings, c: Incoming, mem: string, k: nat, events: seq<Event>)
    requires TurnsRead(c.turns, |mem|)
  {
    if MustRedirect(cfg, c) then
      events == [Accepted(c.fd),
                 Redirected(Response(c.redirect + "Connection: close\r\n", "Redirecting to HTTPS.")),
                 Closed(c.fd)]
    else if cfg.tlsEnabled && !c.handshake then
      events == [Accepted(c.fd), Closed(c.fd)]
    else
      var begin := [Accepted(c.fd)] + if cfg.tlsEnabled then [Secured] else [];
      var end := (if cfg.tlsEnabled then [Released] else []) + [Closed(c.fd)];
      && |begin| + |end| <= |events| && events == begin + events[|begin|..|events| - |end|] + end
      && Served(cfg, cfg.tlsEnabled, mem, c.turns, 0, k, events[|begin|..|events| - |end|])
  }

  /** The buffer after a connection: what was read stays, and so does all beyond it. */
  function Leaves(cfg: Settings, c: Incoming, mem: string, k: nat): (m: string)
    requires IncomingOk(c, |mem|) && k <= Active(c.turns)
    ensures |m| == |mem|
  {
    OverwriteLength(mem, if ReadFits(c.early, |mem|) then c.early.GetOr("") else "");
    if MustRedirect(cfg, c) then if c.early.Some? then Overwrite(mem, c.early.value) else mem
    else if cfg.tlsEnabled && !c.handshake then mem
    else BufferAt(mem, c.turns, k)
  }

  lemma {:induction false} ServeHappens(cfg: Settings, c: Incoming, mem: string) returns (k: nat)
    requires Initialised(cfg) && IncomingOk(c, |mem|)
    ensures Happens(cfg, c, mem, k, Serve(cfg, c, mem).0)
    ensures k <= Active(c.turns) && Serve(cfg, c, mem).1 == Leaves(cfg, c, mem, k)
  {
    hide Served, KeepAliveLoop, BufferAt;
    if c.early == Some("") {
      assert Overwrite(mem, "") == mem;
    }
    k := LoopServes(cfg, cfg.tlsEnabled, mem, c.turns, 0);
    var loop := KeepAliveLoop(cfg, cfg.tlsEnabled, mem, c.turns, 0).0;
    var events := Serve(cfg, c, mem).0;
    if !MustRedirect(cfg, c) && !(cfg.tlsEnabled && !c.handshake) {
      var begin := [Accepted(c.fd)] + if cfg.tlsEnabled then [Secured] else [];
      var end := (if cfg.tlsEnabled then [Released] else []) + [Closed(c.fd)];
      assert events == begin + loop + end;
      assert events[|begin|..|events| - |end|] == loop;
    }
  }

  /** The course of a run: the buffer before each connection, and how many of its turns were served. */
  ghost predicate Course(
    cfg: Settings, script: seq<Incoming>, mem: string, buffers: seq<string>, ks: seq<nat>, run: seq<seq<Event>>)
  {
    && |run| == |ks| == |script| && |buffers| == |script| + 1 && buffers[0] == mem
    && forall i | 0 <= i < |script| ::
         && IncomingOk(script[i], |buffers[i]|) && ks[i] <= Active(script[i].turns)
         && Happens(cfg, script[i], buffers[i], ks[i], run[i])
         && buffers[i + 1] == Leaves(cfg, script[i], buffers[i], ks[i])
  }

  /**
   * Every run does on every connection what it is to do: a redirect, nothing but the close after a failed
   * handshake, or the answer to each turn that can be served, up to the first that is not kept alive.
   */
  lemma {:induction false} EveryConnectionIsServed(cfg: Settings, script: seq<Incoming>, mem: string)
    returns (buffers: seq<string>, ks: seq<nat>)
    requires Initialised(cfg) && ScriptOk(script, |mem|)
    ensures Course(cfg, script, mem, buffers, ks, Run(cfg, script, mem))
    decreases |script|
  {
    hide Serve, Happens, Leaves, Course;
    if script == [] {
      buffers, ks := [mem], [];
      NoCourse(cfg, mem);
    } else {
      assert script[0] in script;
      var k := ServeHappens(cfg, script[0], mem);
      var buffers', ks' := EveryConnectionIsServed(cfg, script[1..], Serve(cfg, script[0], mem).1);
      buffers, ks := [mem] + buffers', [k] + ks';
      LongerCourse(cfg, script, mem, k, buffers', ks', Serve(cfg, script[0], mem).0,
                   Run(cfg, script[1..], Serve(cfg, script[0], mem).1));
    }
  }

  lemma {:induction false} NoCourse(cfg: Settings, mem: string)
    ensures Course(cfg, [], mem, [mem], [], [])
  {}

  lemma {:induction false} LongerCourse(
    cfg: Settings, script: seq<Incoming>, mem: string, k: nat, buffers: seq<string>, ks: seq<nat>,
    events: seq<Event>, run: seq<seq<Event>>)
    requires script != [] && IncomingOk(script[0], |mem|) && k <= Active(script[0].turns)
    requires Happens(cfg, script[0], mem, k, events)
    requires Course(cfg, script[1..], Leaves(cfg, script[0], mem, k), buffers, ks, run)
    ensures Course(cfg, script, mem, [mem] + buffers, [k] + ks, [events] + run)
  {
    hide Happens, Leaves;
    var buffers', ks', run' := [mem] + buffers, [k] + ks, [events] + run;
    forall i | 0 < i < |script|
      ensures IncomingOk(script[i], |buffers'[i]|) && ks'[i] <= Active(script[i].turns)
      ensures Happens(cfg, script[i], buffers'[i], ks'[i], run'[i])
      ensures buffers'[i + 1] == Leaves(cfg, script[i], buffers'[i], ks'[i])
    {
      assert script[i] == script[1..][i - 1];
    }
  }

  lemma {:induction false} RunLength(cfg: Settings, script: seq<Incoming>, mem: string)
    requires ScriptOk(script, |mem|)
    ensures |Run(cfg, script, mem)| == |script|
  {
    hide Serve;
    if script != [] {
      assert script[0] in script;
      RunLength(cfg, script[1..], Serve(cfg, script[0], mem).1);
    }
  }

  /** Something is dispatched exactly if there is no redirect, no failed handshake, and a turn that can be served. */
  lemma {:induction false} DispatchedIff(cfg: Settings, c: Incoming, mem: string, k: nat, events: seq<Event>)
    requires TurnsRead(c.turns, |mem|) && Happens(cfg, c, mem, k, events)
    ensures (exists i :: 0 <= i < |events| && events[i].Dispatched?)
        <==> !MustRedirect(cfg, c) && !(cfg.tlsEnabled && !c.handshake) && Active(c.turns) > 0
  {
    hide KeptAt, BufferAt, AnswerTo;
    if !MustRedirect(cfg, c) && !(cfg.tlsEnabled && !c.handshake) {
      var n := if cfg.tlsEnabled then 2 else 1;
      var loop := events[n..|events| - n];
      if Active(c.turns) > 0 {
        assert events[n] == loop[0] == Dispatched(cfg.tlsEnabled);
      } else {
        assert loop == [];
      }
    }
  }

  // ---------- who is kept alive ----------

  /** The first header named Connection has this value. */
  ghost predicate AsksFor(hs: seq<Http.Header>, value: string) {
    exists k :: 0 <= k < |hs| && Http.SameName(hs[k].name, "Connection") && Http.SameName(hs[k].value, value)
                && forall j | 0 <= j < k :: !Http.SameName(hs[j].name, "Connection")
  }

  /**
   * Of a printed request: without a timeout none is kept alive; `Connection: close` never is, `keep-alive`
   * always, whatever the version, and else HTTP/1 from 1.1 on is.
   */
  lemma {:induction false} PrintedKeeps(cfg: Settings, m: Http.Message, mem: string)
    requires Http.MessageOk(m) && Http.ShowMessage(m) <= mem
    ensures var keeps := ShouldKeepAlive(cfg, Http.Parse(mem, |Http.ShowMessage(m)|).1);
      keeps <==>
        && cfg.keepAliveTimeout > 0 && !AsksFor(m.headers, "close")
        && (AsksFor(m.headers, "keep-alive") || (m.major == 1 && m.minor >= 1))
  {
    hide Http.Parse, Http.ShowMessage, Http.SameName, Http.HeaderValue, Http.MessageOk;
    Http.MessageParses(m, mem);
    Http.HeaderValueIsFirst(m.headers, "Connection");
    AskedIs(m.headers, "close");
    AskedIs(m.headers, "keep-alive");
  }

  lemma {:induction false} AskedIs(hs: seq<Http.Header>, value: string)
    ensures var v := Http.HeaderValue(hs, "Connection");
      AsksFor(hs, value) <==> v.Some? && Http.SameName(v.value, value)
  {
    hide Http.SameName, Http.HeaderValue;
    Http.HeaderValueIsFirst(hs, "Connection");
  }

  // ---------- what is sent ----------

  function AnswerIn(e: Event): seq<Response> {
    if e.Answered? || e.Redirected? then [e.response] else []
  }

  function Answers(events: seq<Event>): seq<Response> {
    if events == [] then [] else AnswerIn(events[0]) + Answers(events[1..])
  }

  lemma {:induction false} AnswersAppend(a: seq<Event>, b: seq<Event>)
    ensures Answers(a + b) == Answers(a) + Answers(b)
  {
    hide AnswerIn;
    if a == [] {
      assert a + b == b;
    } else {
      var rest := Answers(a[1..]);
      assert (a + b)[1..] == a[1..] + b && (a + b)[0] == a[0];
      AnswersAppend(a[1..], b);
      assert AnswerIn(a[0]) + (rest + Answers(b)) == AnswerIn(a[0]) + rest + Answers(b);
    }
  }

  lemma {:induction false} StreamAppend(a: seq<Response>, b: seq<Response>)
    ensures Stream(a + b) == Stream(a) + Stream(b)
  {
    if a == [] {
      assert a + b == b;
    } else {
      assert (a + b)[1..] == a[1..] + b;
      StreamAppend(a[1..], b);
    }
  }

  /** What is sent on each connection of a run. */
  function Wires(run: seq<seq<Event>>): seq<string> {
    seq(|run|, i requires 0 <= i < |run| => Stream(Answers(run[i])))
  }

  lemma PlainLine(name: string, value: string)
    requires ':' !in name && |name| != 14 && '\r' !in name && '\r' !in value
    ensures var line := name + ":" + value; LengthIn(line) == None && Http.IsLine(line)
  {
    hide Split;
    Http.SplitChar(name, ':', value);
    forall j: nat ensures !OccursAt(name + ":" + value, CRLF, j) {
      NoCarriageReturn(name + ":" + value, j);
    }
  }

  function ConnectionHeader(keep: bool): string {
    "Connection" + ":" + (if keep then " keep-alive" else " close")
  }

  lemma ConnectionLineIs(keep: bool)
    ensures var line := ConnectionHeader(keep);
      ConnectionLine(keep) == line + CRLF && line != "" && Http.IsLine(line) && LengthIn(line) == None
  {
    hide LengthIn, Http.IsLine;
    PlainLine("Connection", if keep then " keep-alive" else " close");
  }

  /** A handler that writes proper header lines makes a proper response. */
  lemma ProperAnswer(head: string, text: string, lines: seq<string>, keep: bool)
    requires HasLines(Response(head, text), lines) && |text| <= Decimal.LONG_MAX
    ensures Proper(Response(head + ConnectionLine(keep), text))
  {
    hide LengthIn, Http.IsLine, ConnectionHeader, ConnectionLine;
    var line := ConnectionHeader(keep);
    ConnectionLineIs(keep);
    ShowLinesAppend(lines, line);
    assert head + ConnectionLine(keep) == Http.ShowLines(lines) + line + CRLF;
    assert HasLines(Response(head + ConnectionLine(keep), text), lines + [line]);
  }

  ghost predicate ProperOutput(c: Incoming) {
    && (forall t | t in c.turns :: ProperTurn(t))
    && ProperTurn(Turn(true, None, c.redirect, REDIRECT_BODY))
  }

  ghost predicate ProperTurn(t: Turn) {
    |t.body| <= Decimal.LONG_MAX && exists lines :: HasLines(Response(t.head, t.body), lines)
  }

  lemma ProperTurnAnswer(t: Turn, keep: bool)
    requires ProperTurn(t)
    ensures Proper(Response(t.head + ConnectionLine(keep), t.body))
  {
    hide HasLines, Proper, ConnectionLine;
    var lines :| HasLines(Response(t.head, t.body), lines);
    ProperAnswer(t.head, t.body, lines, keep);
  }

  lemma {:induction false} LoopAnswersProper(cfg: Settings, tls: bool, mem: string, turns: seq<Turn>, served: nat)
    requires TurnsRead(turns, |mem|) && forall t | t in turns :: ProperTurn(t)
    ensures forall r | r in Answers(KeepAliveLoop(cfg, tls, mem, turns, served).0) :: Proper(r)
    decreases |turns|
  {
    hide ShouldKeepAlive, Http.Parse, Overwrite, Proper, ProperTurn, ConnectionLine;
    if turns == [] || !turns[0].ready || turns[0].read.GetOr("") == "" {
    } else {
      var t := turns[0];
      var events := KeepAliveLoop(cfg, tls, mem, turns, served).0;
      var keep := events[1].keep;
      assert t in turns;
      ProperTurnAnswer(t, keep);
      OverwriteLength(mem, t.read.value);
      AnswersAppend(events[..2], events[2..]);
      assert events == events[..2] + events[2..] && events[..2] == [events[0], events[1]];
      assert [events[0], events[1]][1..] == [events[1]] && Answers([events[1]]) == [events[1].response];
      assert Answers(events[..2]) == [events[1].response];
      if keep {
        LoopAnswersProper(cfg, tls, Overwrite(mem, t.read.value), turns[1..], served + 1);
      }
    }
  }

  /** The stream of every connection splits back into exactly the responses given on it. */
  lemma ConnectionSplits(cfg: Settings, c: Incoming, mem: string)
    requires IncomingOk(c, |mem|) && ProperOutput(c)
    ensures var rs := Answers(Serve(cfg, c, mem).0);
      ReceiveAll(Stream(rs)) == Some(AllReceived(rs))
  {
    hide KeepAliveLoop, Proper, ProperTurn, Answers, ReceiveAll, Stream;
    var rs := Answers(Serve(cfg, c, mem).0);
    LoopAnswersProper(cfg, true, mem, c.turns, 0);
    LoopAnswersProper(cfg, false, mem, c.turns, 0);
    ServedWire(cfg, c, true, mem, []);
    ServedWire(cfg, c, false, mem, []);
    ProperTurnAnswer(Turn(true, None, c.redirect, REDIRECT_BODY), false);
    RedirectWire(c);
    NothingSent(c);
    ReceivesAll(rs);
  }

  /** In every run, what was sent on a connection splits back into exactly the responses of its events. */
  lemma {:induction false} EveryWireSplits(cfg: Settings, script: seq<Incoming>, mem: string, i: nat)
    requires ScriptOk(script, |mem|) && i < |script| && ProperOutput(script[i])
    ensures |Run(cfg, script, mem)| == |Wires(Run(cfg, script, mem))| == |script|
    ensures ReceiveAll(Wires(Run(cfg, script, mem))[i]) == Some(AllReceived(Answers(Run(cfg, script, mem)[i])))
    decreases |script|
  {
    hide Serve, ReceiveAll, Answers, Stream, ProperOutput, AllReceived;
    RunLength(cfg, script, mem);
    assert script[0] in script;
    if i == 0 {
      ConnectionSplits(cfg, script[0], mem);
    } else {
      EveryWireSplits(cfg, script[1..], Serve(cfg, script[0], mem).1, i - 1);
    }
  }

  // ---------- the code ----------

  predicate TurnFits(t: Turn, headersSize: nat, bodySize: nat) {
    && |t.head| + |ConnectionLine(true)| + |LengthLine(|t.body|)| + 5 < headersSize
    && |t.body| + 1 < bodySize
  }

  /** Every response fits into its buffers, and every read into the input buffer. */
  predicate Fits(c: Incoming, headersSize: nat, bodySize: nat, inputSize: nat) {
    && IncomingOk(c, inputSize)
    && (forall t | t in c.turns :: TurnFits(t, headersSize, bodySize))
    && TurnFits(Turn(true, None, c.redirect, REDIRECT_BODY), headersSize, bodySize)
  }

  class Server {
    const cfg: Settings
    const headers: Buffer
    const body: Buffer
    const input: array<char>
    const request: Http.Request
    var inputPosition: nat
    var clientFd: int
    var isTls: bool
    var receiveTimeout: int     // of the client's socket; none if 0
    var tlsSession: bool
    var requestsCount: nat
    var wire: string            // sent on the current connection
    var wires: seq<string>      // sent on each connection that is over
    ghost var log: seq<Event>

    ghost function Repr(): set<object>
      reads this
    {
      {this, headers, headers.data, body, body.data, input, request, request.headers}
    }

    ghost predicate Valid()
      reads Repr()
    {
      && headers != body && headers.data != body.data
      && input != headers.data && input != body.data
      && headers.Valid() && body.Valid() && request.Valid()
      && inputPosition <= input.Length
    }

    /** No connection is in progress: no session, and both output buffers empty and zeroed. */
    ghost predicate AtRest()
      reads Repr()
    {
      Valid() && !tlsSession && headers.Empty() && body.Empty()
    }

    constructor (cfg: Settings, headersSize: nat, bodySize: nat, inputSize: nat)
      ensures AtRest() && fresh(Repr()) && this.cfg == cfg
      ensures headers.data.Length == headersSize && body.data.Length == bodySize && input.Length == inputSize
      ensures input[..] == seq(inputSize, _ => NUL)
      ensures log == [] && wires == [] && requestsCount == 0 && clientFd == 0
    {
      this.cfg := cfg;
      headers := new Buffer(headersSize);
      body := new Buffer(bodySize);
      input := new char[inputSize](_ => NUL);
      request := new Http.Request();
      inputPosition, clientFd, isTls, tlsSession, requestsCount := 0, 0, false, false, 0;
      receiveTimeout := 0;
      wire, wires, log := "", [], [];
    }

    /** `wrd_net_accept`, on a connection that the system hands over. */
    method Accept(c: Incoming)
      requires Valid()
      modifies `isTls, `clientFd, `receiveTimeout, `wire, `log
      ensures isTls == IsTls(cfg, c) && clientFd == c.fd && wire == "" && log == old(log) + [Accepted(c.fd)]
      ensures receiveTimeout == if cfg.keepAliveTimeout > 0 then cfg.keepAliveTimeout else 0
    {
      receiveTimeout := 0;
      if cfg.keepAliveTimeout > 0 {
        receiveTimeout := cfg.keepAliveTimeout;
      }
      isTls := if cfg.twoSockets then c.tlsSocket else cfg.tlsEnabled;
      clientFd := c.fd;
      wire := "";
      log := log + [Accepted(c.fd)];
    }

    /** `wrd_net_accept`, when it fails: in `select`, or on the socket that `select` found ready. */
    method AcceptFails(selected: bool, tlsSocket: bool)
      modifies `isTls, `clientFd
      ensures clientFd == 0
      ensures isTls == if !cfg.twoSockets then cfg.tlsEnabled else if selected then tlsSocket else old(isTls)
    {
      if !cfg.twoSockets {
        isTls := cfg.tlsEnabled;
      } else if selected {
        isTls := tlsSocket;
      }
      clientFd := 0;
    }

    /** `wrd_net_finish_request`: the TLS session goes before the socket. */
    method FinishRequest(closes: bool) returns (ok: bool)
      requires Valid()
      modifies `tlsSession, `log, `wires
      ensures !tlsSession && ok == (clientFd <= 0 || closes)
      ensures log == old(log) + (if old(tlsSession) then [Released] else [])
                     + (if clientFd > 0 then [Closed(clientFd)] else [])
      ensures wires == old(wires) + if clientFd > 0 then [wire] else []
    {
      if tlsSession {
        tlsSession := false;
        log := log + [Released];
      }
      if clientFd > 0 {
        log := log + [Closed(clientFd)];
        wires := wires + [wire];
        return closes;
      }
      return true;
    }

    /** `wrd_net_read`: what earlier requests left beyond the bytes read stays in the buffer. */
    method Read(bytes: Option<string>) returns (ok: bool)
      requires Valid() && ReadFits(bytes, input.Length)
      modifies `inputPosition, input
      ensures Valid() && ok == (bytes.GetOr("") != "")
      ensures inputPosition == if ok then |bytes.value| else 0
      ensures input[..] == if ok then Overwrite(old(input[..]), bytes.value) else old(input[..])
    {
      if bytes.GetOr("") == "" {
        inputPosition := 0;
        return false;
      }
      var text := bytes.value;
      forall k | 0 <= k < |text| {
        input[k] := text[k];
      }
      assert input[..] == Overwrite(old(input[..]), text);
      inputPosition := |text|;
      ok := true;
    }

    /** `wrd_should_keep_alive` */
    method KeepAlive() returns (keep: bool)
      requires Valid()
      ensures keep == ShouldKeepAlive(cfg, request.State())
    {
      if cfg.keepAliveTimeout <= 0 {
        return false;
      }
      var value := request.GetHeader("Connection");
      if value.Some? {
        if Http.SameName(value.value, "close") {
          return false;
        }
        if Http.SameName(value.value, "keep-alive") {
          return true;
        }
      }
      keep := request.major == 1 && request.minor >= 1;
    }

    /** The handler's output, the Connection header, and the flush. */
    method Respond(head: string, text: string, keep: bool)
      requires Valid() && headers.Empty() && body.Empty()
      requires |head| + |ConnectionLine(keep)| + |LengthLine(|text|)| + 5 < headers.data.Length
      requires |text| + 1 < body.data.Length
      modifies headers, headers.data, body, body.data, `wire
      ensures Valid() && headers.Empty() && body.Empty()
      ensures input[..] == old(input[..]) && request.State() == old(request.State())
      ensures wire == old(wire) + Frame(Response(head + ConnectionLine(keep), text))
    {
      hide ConnectionLine, Frame, LengthLine;
      headers.Append(head);
      body.Append(text);
      headers.Append(ConnectionLine(keep));
      assert headers.Contents() == head + ConnectionLine(keep) && body.Contents() == text;
      var sent := Flush(headers, body);
      wire := wire + sent;
    }

    /** Parse the request that was read, dispatch it, and answer. */
    method Answer(t: Turn, served: nat) returns (keep: bool)
      requires Valid() && headers.Empty() && body.Empty() && TurnFits(t, headers.data.Length, body.data.Length)
      requires Http.Stops(input[..], inputPosition)
      modifies headers, headers.data, body, body.data, request, request.headers, `wire, `requestsCount, `log
      ensures Valid() && headers.Empty() && body.Empty()
      ensures keep == (ShouldKeepAlive(cfg, Http.Parse(input[..], inputPosition).1) && served + 1 < cfg.keepAliveMax)
      ensures request.State() == Http.Parse(input[..], inputPosition).1 && request.bodyOffset <= inputPosition
      ensures var answer := Answered(keep, Response(t.head + ConnectionLine(keep), t.body));
        && log == old(log) + [Dispatched(tlsSession), answer] && requestsCount == old(requestsCount) + 1
        && wire == old(wire) + Frame(answer.response)
      ensures input[..] == old(input[..])
    {
      hide ShouldKeepAlive, Http.Parse, Http.Stops, Frame, LengthLine;
      var accepted := request.ParseQueryHeaders(input, inputPosition);
      requestsCount := requestsCount + 1;
      keep := KeepAlive();
      keep := keep && served + 1 < cfg.keepAliveMax;
      log := log + [Dispatched(tlsSession)];
      Respond(t.head, t.body, keep);
      log := log + [Answered(keep, Response(t.head + ConnectionLine(keep), t.body))];
    }

    /** Requests on an open connection, one after the other. */
    method ServeTurns(turns: seq<Turn>)
      requires Valid() && headers.Empty() && body.Empty()
      requires TurnsRead(turns, input.Length) && LoopReadable(cfg, input[..], turns, 0)
      requires forall t | t in turns :: TurnFits(t, headers.data.Length, body.data.Length)
      modifies headers, headers.data, body, body.data, input, request, request.headers
      modifies `inputPosition, `wire, `requestsCount, `log
      ensures Valid() && headers.Empty() && body.Empty()
      ensures var r := KeepAliveLoop(cfg, tlsSession, old(input[..]), turns, 0);
        && log == old(log) + r.0 && input[..] == r.1
        && requestsCount == old(requestsCount) + Dispatches(r.0)
        && wire == old(wire) + Stream(Answers(r.0))
    {
      hide ShouldKeepAlive, Http.Parse, Http.Stops, Frame, Stream, Answers, Dispatches, Overwrite, LengthLine,
           KeepAliveLoop, LoopReadable;
      ghost var whole := KeepAliveLoop(cfg, tlsSession, input[..], turns, 0);
      ghost var done: seq<Event> := [];
      NothingDone(wire);
      assert turns[0..] == turns && done + whole.0 == whole.0;
      var keepAlive := true;
      var requestCount := 0;
      while keepAlive
        invariant Valid() && headers.Empty() && body.Empty()
        invariant requestCount <= |turns|
        invariant log == old(log) + done && requestsCount == old(requestsCount) + Dispatches(done)
        invariant wire == old(wire) + Stream(Answers(done))
        invariant TurnsRead(turns[requestCount..], input.Length)
        invariant keepAlive ==> LoopReadable(cfg, input[..], turns[requestCount..], requestCount)
        invariant var rest :=
            if keepAlive then KeepAliveLoop(cfg, tlsSession, input[..], turns[requestCount..], requestCount)
            else ([], input[..]);
          whole == (done + rest.0, rest.1)
        decreases if keepAlive then 1 + |turns| - requestCount else 0
      {
        LoopStep(cfg, tlsSession, input[..], turns, requestCount, done);
        if requestCount == |turns| || !turns[requestCount].ready {
          break;
        }
        var t := turns[requestCount];
        assert t == turns[requestCount..][0] && t in turns;
        var ok := Read(t.read);
        if !ok {
          break;
        }
        keepAlive := Answer(t, requestCount);
        requestCount := requestCount + 1;
        ghost var answer := Answered(keepAlive, Response(t.head + ConnectionLine(keepAlive), t.body));
        OneTurnDone(old(wire), done, tlsSession, answer);
        done := done + [Dispatched(tlsSession), answer];
      }
      assert done + [] == done;
    }

    /** The answer to a plain request where TLS is required. */
    method RedirectHttps(c: Incoming)
      requires Valid() && headers.Empty() && body.Empty()
      requires ReadFits(c.early, input.Length) && ReadSafe(input[..], c.early)
      requires TurnFits(Turn(true, None, c.redirect, REDIRECT_BODY), headers.data.Length, body.data.Length)
      modifies headers, headers.data, body, body.data, input, request, request.headers
      modifies `inputPosition, `wire, `log
      ensures Valid() && headers.Empty() && body.Empty()
      ensures input[..] == AfterEarly(c, old(input[..]))
      ensures var answer := Response(c.redirect + ConnectionLine(false), REDIRECT_BODY);
        log == old(log) + [Redirected(answer)] && wire == old(wire) + Frame(answer)
    {
      hide Http.Parse, Frame, LengthLine;
      var ok := Read(c.early);
      ok := request.ParseQueryHeaders(input, inputPosition);
      Respond(c.redirect, REDIRECT_BODY, false);
      log := log + [Redirected(Response(c.redirect + ConnectionLine(false), REDIRECT_BODY))];
    }

    /** A connection that is only redirected. */
    method RedirectAndFinish(c: Incoming)
      requires AtRest() && Fits(c, headers.data.Length, body.data.Length, input.Length)
      requires clientFd == c.fd && wire == "" && ReadSafe(input[..], c.early)
      modifies headers, headers.data, body, body.data, input, request, request.headers
      modifies `inputPosition, `tlsSession, `wire, `wires, `log
      ensures AtRest() && input[..] == AfterEarly(c, old(input[..]))
      ensures old(log) + RedirectEvents(c)[1..] == log && Dispatches(RedirectEvents(c)) == 0
      ensures wires == old(wires) + [Stream(Answers(RedirectEvents(c)))]
    {
      hide Frame, LengthLine, Answers, Dispatches, Stream, ReadSafe;
      RedirectHttps(c);
      var ok := FinishRequest(c.closes);
      RedirectWire(c);
    }

    /** A connection that is served. */
    method ServeAndFinish(c: Incoming)
      requires Valid() && headers.Empty() && body.Empty()
      requires Fits(c, headers.data.Length, body.data.Length, input.Length)
      requires clientFd == c.fd && wire == "" && LoopReadable(cfg, input[..], c.turns, 0)
      modifies headers, headers.data, body, body.data, input, request, request.headers
      modifies `inputPosition, `tlsSession, `wire, `wires, `requestsCount, `log
      ensures AtRest()
      ensures var r := KeepAliveLoop(cfg, old(tlsSession), old(input[..]), c.turns, 0);
        && log == old(log) + r.0 + (if old(tlsSession) then [Released] else []) + [Closed(c.fd)]
        && input[..] == r.1 && requestsCount == old(requestsCount) + Dispatches(r.0)
        && wires == old(wires) + [Stream(Answers(r.0))]
    {
      hide KeepAliveLoop, LoopReadable, Frame, LengthLine, Answers, Dispatches, Stream;
      ghost var sent := Stream(Answers(KeepAliveLoop(cfg, tlsSession, input[..], c.turns, 0).0));
      ServeTurns(c.turns);
      assert wire == "" + sent == sent;
      var ok := FinishRequest(c.closes);
    }

    /** The body of the accept loop. */
    method ServeConnection(c: Incoming)
      requires AtRest() && Fits(c, headers.data.Length, body.data.Length, input.Length)
      requires ServeReadable(cfg, c, input[..])
      modifies headers, headers.data, body, body.data, input, request, request.headers
      modifies `inputPosition, `clientFd, `isTls, `receiveTimeout, `tlsSession, `wire, `wires, `requestsCount, `log
      ensures AtRest()
      ensures var r := Serve(cfg, c, old(input[..]));
        && log == old(log) + r.0 && input[..] == r.1
        && requestsCount == old(requestsCount) + Dispatches(r.0)
        && wires == old(wires) + [Stream(Answers(r.0))]
    {
      hide KeepAliveLoop, LoopReadable, ReadSafe, Frame, LengthLine, Answers, Dispatches, Stream;
      ghost var mem := input[..];
      var ok;
      Accept(c);
      if isTls && cfg.tlsReady {
        if c.firstByte >= 0 && c.firstByte != 0x16 {
          RedirectAndFinish(c);
          return;
        }
        if !c.handshake {
          ok := FinishRequest(c.closes);
          NothingSent(c);
          return;
        }
        tlsSession := true;
        log := log + [Secured];
      }
      if cfg.tlsEnabled && !isTls {
        RedirectAndFinish(c);
        return;
      }
      ghost var tls := tlsSession;
      ServeAndFinish(c);
      ServedWire(cfg, c, tls, mem, old(log));
    }

    /** `wrd_worker_loop` */
    method WorkerLoop(script: seq<Incoming>, selected: bool, tlsSocket: bool)
      requires AtRest() && ScriptOk(script, input.Length) && RunReadable(cfg, script, input[..])
      requires forall c | c in script :: Fits(c, headers.data.Length, body.data.Length, input.Length)
      modifies headers, headers.data, body, body.data, input, request, request.headers
      modifies `inputPosition, `clientFd, `isTls, `receiveTimeout, `tlsSession, `wire, `wires, `requestsCount, `log
      ensures AtRest() && clientFd == 0
      ensures var run := Run(cfg, script, old(input[..]));
        && log == old(log) + Flatten(run)
        && requestsCount == old(requestsCount) + Dispatches(Flatten(run))
        && wires == old(wires) + Wires(run)
    {
      hide Run, RunReadable, Serve, ServeReadable, Flatten, Wires, Dispatches, Answers, Stream;
      ghost var whole := Run(cfg, script, input[..]);
      ghost var done: seq<seq<Event>> := [];
      NoneServed();
      assert script[0..] == script && [] + whole == whole;
      var next := 0;
      while next < |script|
        invariant next <= |script| && AtRest()
        invariant whole == done + Run(cfg, script[next..], input[..])
        invariant RunReadable(cfg, script[next..], input[..])
        invariant log == old(log) + Flatten(done)
        invariant requestsCount == old(requestsCount) + Dispatches(Flatten(done))
        invariant wires == old(wires) + Wires(done)
      {
        var c := script[next];
        ghost var r := Serve(cfg, c, input[..]);
        RunStep(cfg, script, next, input[..], done);
        ServeConnection(c);
        OneServed(done, r.0);
        done := done + [r.0];
        next := next + 1;
      }
      AcceptFails(selected, tlsSocket);
      RunEnds(cfg, script, input[..], done);
    }

    /**
     * `wrd_net_close` after the loop: the listening sockets are closed, and there is no client to close again.
     * Its result is that of the client alone, so a listening socket that fails to close is not reported.
     */
    method NetClose(serverFd: int, serverTlsFd: int, closes: int -> bool) returns (ok: bool, closed: seq<int>)
      requires AtRest() && clientFd == 0
      modifies `tlsSession, `log, `wires
      ensures log == old(log) && ok
      ensures closed == (if serverFd > 0 then [serverFd] else []) + (if serverTlsFd > 0 then [serverTlsFd] else [])
    {
      ok, closed := true, [];
      if serverFd > 0 {
        closed := closed + [serverFd];
        ok := ok && closes(serverFd);
      }
      if serverTlsFd > 0 {
        closed := closed + [serverTlsFd];
        ok := ok && closes(serverTlsFd);
      }
      ok := FinishRequest(true);
    }
  }

  lemma RedirectWire(c: Incoming)
    ensures var answer := Response(c.redirect + ConnectionLine(false), REDIRECT_BODY);
      && RedirectEvents(c) == [Accepted(c.fd)] + [Redirected(answer)] + [Closed(c.fd)]
      && Answers(RedirectEvents(c)) == [answer] && Dispatches(RedirectEvents(c)) == 0
      && Stream(Answers(RedirectEvents(c))) == "" + Frame(answer)
  {
    var answer := Response(c.redirect + ConnectionLine(false), REDIRECT_BODY);
    WireOf([Redirected(answer)], [Accepted(c.fd)], [Closed(c.fd)]);
    assert Answers([Redirected(answer)]) == [answer] && Stream([answer]) == Frame(answer);
  }

  lemma NothingSent(c: Incoming)
    ensures var events := [Accepted(c.fd), Closed(c.fd)];
      Answers(events) == [] && Stream(Answers(events)) == "" && Dispatches(events) == 0
  {
    NoAnswers([Accepted(c.fd), Closed(c.fd)]);
  }

  lemma ServedWire(cfg: Settings, c: Incoming, tls: bool, mem: string, log: seq<Event>)
    requires IncomingOk(c, |mem|)
    ensures var r := KeepAliveLoop(cfg, tls, mem, c.turns, 0).0;
      var events := if tls then [Accepted(c.fd), Secured] + r + [Released, Closed(c.fd)]
                    else [Accepted(c.fd)] + r + [Closed(c.fd)];
      && Answers(events) == Answers(r) && Dispatches(events) == Dispatches(r)
      && "" + Stream(Answers(r)) == Stream(Answers(r))
      && log + events == if tls then log + [Accepted(c.fd)] + [Secured] + r + [Released] + [Closed(c.fd)]
                         else log + [Accepted(c.fd)] + r + [] + [Closed(c.fd)]
  {
    hide KeepAliveLoop, Answers, Stream, Dispatches;
    var r := KeepAliveLoop(cfg, tls, mem, c.turns, 0).0;
    if tls {
      WireOf(r, [Accepted(c.fd), Secured], [Released, Closed(c.fd)]);
    } else {
      WireOf(r, [Accepted(c.fd)], [Closed(c.fd)]);
    }
  }

  lemma NoneServed()
    ensures Flatten([]) == [] && Dispatches([]) == 0 && Wires([]) == []
  {}

  lemma OneServed(done: seq<seq<Event>>, events: seq<Event>)
    ensures Flatten(done + [events]) == Flatten(done) + events
    ensures Dispatches(Flatten(done + [events])) == Dispatches(Flatten(done)) + Dispatches(events)
    ensures Wires(done + [events]) == Wires(done) + [Stream(Answers(events))]
  {
    FlattenAppend(done, events);
    DispatchesAppend(Flatten(done), events);
  }

  lemma {:induction false} FlattenAppend(done: seq<seq<Event>>, events: seq<Event>)
    ensures Flatten(done + [events]) == Flatten(done) + events
  {
    if done != [] {
      assert (done + [events])[1..] == done[1..] + [events];
      FlattenAppend(done[1..], events);
    }
  }

  lemma WireOf(events: seq<Event>, a: seq<Event>, b: seq<Event>)
    requires (forall e | e in a :: !e.Answered? && !e.Redirected? && !e.Dispatched?)
    requires (forall e | e in b :: !e.Answered? && !e.Redirected? && !e.Dispatched?)
    ensures Answers(a + events + b) == Answers(events) && Dispatches(a + events + b) == Dispatches(events)
  {
    AnswersAppend(a + events, b);
    AnswersAppend(a, events);
    DispatchesAppend(a + events, b);
    DispatchesAppend(a, events);
    NoAnswers(a);
    NoAnswers(b);
  }

  lemma {:induction false} NoAnswers(a: seq<Event>)
    requires (forall e | e in a :: !e.Answered? && !e.Redirected? && !e.Dispatched?)
    ensures Answers(a) == [] && Dispatches(a) == 0
  {
    if a != [] {
      assert a[0] in a;
      NoAnswers(a[1..]);
    }
  }

  /** The keep-alive loop at its `i`-th turn, `done` being the events so far. */
  lemma RunStep(cfg: Settings, script: seq<Incoming>, i: nat, mem: string, done: seq<seq<Event>>)
    requires i < |script| && ScriptOk(script, |mem|)
    ensures var r := Serve(cfg, script[i], mem);
      && done + Run(cfg, script[i..], mem) == done + [r.0] + Run(cfg, script[i + 1..], r.1)
      && (RunReadable(cfg, script[i..], mem) ==>
            ServeReadable(cfg, script[i], mem) && RunReadable(cfg, script[i + 1..], r.1))
  {
    hide Serve, ServeReadable;
    var r := Serve(cfg, script[i], mem);
    assert script[i..][0] == script[i] && script[i..][1..] == script[i + 1..];
    assert done + ([r.0] + Run(cfg, script[i + 1..], r.1)) == done + [r.0] + Run(cfg, script[i + 1..], r.1);
  }

  lemma RunEnds(cfg: Settings, script: seq<Incoming>, mem: string, done: seq<seq<Event>>)
    ensures done + Run(cfg, script[|script|..], mem) == done
  {}

  lemma LoopStep(cfg: Settings, tls: bool, mem: string, turns: seq<Turn>, i: nat, done: seq<Event>)
    requires i <= |turns| && TurnsRead(turns[i..], |mem|)
    ensures i < |turns| && turns[i].ready && turns[i].read.GetOr("") != "" && LoopReadable(cfg, mem, turns[i..], i) ==>
      var bytes := turns[i].read.value;
      && |bytes| <= |mem| && TurnsRead(turns[i + 1..], |mem|)
      && var mem' := Overwrite(mem, bytes);
      && |mem'| == |mem| && Http.Stops(mem', |bytes|)
      && (ShouldKeepAlive(cfg, Http.Parse(mem', |bytes|).1) && i + 1 < cfg.keepAliveMax ==>
            LoopReadable(cfg, mem', turns[i + 1..], i + 1))
    ensures var now := KeepAliveLoop(cfg, tls, mem, turns[i..], i);
      if i == |turns| || !turns[i].ready || turns[i].read.GetOr("") == "" then now == ([], mem)
      else
        var t := turns[i];
        && |t.read.value| <= |mem| && TurnsRead(turns[i + 1..], |mem|)
        && var mem' := Overwrite(mem, t.read.value);
        var keep := ShouldKeepAlive(cfg, Http.Parse(mem', |t.read.value|).1) && i + 1 < cfg.keepAliveMax;
        var answer := Answered(keep, Response(t.head + ConnectionLine(keep), t.body));
        var rest := if keep then KeepAliveLoop(cfg, tls, mem', turns[i + 1..], i + 1) else ([], mem');
        (done + now.0, now.1) == (done + [Dispatched(tls), answer] + rest.0, rest.1)
  {
    hide ShouldKeepAlive, Http.Parse, Overwrite, ConnectionLine;
    if i < |turns| {
      assert turns[i..][0] == turns[i] && turns[i..][1..] == turns[i + 1..];
      assert turns[i] in turns[i..];
      var t := turns[i];
      if t.ready && t.read.GetOr("") != "" {
        var mem' := Overwrite(mem, t.read.value);
        OverwriteLength(mem, t.read.value);
        var keep := ShouldKeepAlive(cfg, Http.Parse(mem', |t.read.value|).1) && i + 1 < cfg.keepAliveMax;
        var events := [Dispatched(tls), Answered(keep, Response(t.head + ConnectionLine(keep), t.body))];
        if keep {
          var rest := KeepAliveLoop(cfg, tls, mem', turns[i + 1..], i + 1).0;
          assert done + (events + rest) == done + events + rest;
        } else {
          assert done + events + [] == done + events;
        }
      }
    }
  }

  lemma NothingDone(wire: string)
    ensures wire == wire + Stream(Answers([])) && Dispatches([]) == 0
  {}

  lemma OneTurnDone(wire: string, done: seq<Event>, tls: bool, answer: Event)
    requires answer.Answered?
    ensures var done' := done + [Dispatched(tls), answer];
      && Dispatches(done') == Dispatches(done) + 1
      && wire + Stream(Answers(done')) == wire + Stream(Answers(done)) + Frame(answer.response)
  {
    hide Answers, Dispatches, Stream, Frame;
    var turn := [Dispatched(tls), answer];
    DispatchesAppend(done, turn);
    AnswersAppend(done, turn);
    TurnAnswers(tls, answer);
    StreamAppend(Answers(done), [answer.response]);
  }

  lemma TurnAnswers(tls: bool, answer: Event)
    requires answer.Answered?
    ensures var turn := [Dispatched(tls), answer];
      Answers(turn) == [answer.response] && Dispatches(turn) == 1 && Stream([answer.response]) == Frame(answer.response)
  {
    hide Frame;
    var turn := [Dispatched(tls), answer];
    assert turn[1..] == [answer] && [answer][1..] == [];
    assert Answers([answer]) == [answer.response] && Dispatches([answer]) == 0;
  }
}
