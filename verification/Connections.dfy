/** The table of connections, as a state machine driven by the caller's commands
    and by what the MySQL client library answers. */
module Connections {
  import opened Bytes

  const MAXCONN: nat := 20

  /** Client library events that matter: allocating and closing a handle. */
  datatype Event = Inited(handle: nat) | Closed(handle: nat)

  /** `conn` and `isopen` are the slots; `live` are the handles allocated and not
      yet closed; `log` is every event so far. */
  datatype State = State(conn: seq<Option<nat>>, isopen: seq<bool>, live: set<nat>, log: seq<Event>)

  /** What the library answers to an open: the handle `mysql_init` allocates (it
      keeps the one passed to it, if any), and whether connecting and the status
      query succeed.  `customTls` is a TLS argument with a brace, refused after
      the handle is made. */
  datatype Opening = Opening(init: Option<nat>, customTls: bool, connects: bool, answers: bool)

  /** A call; `id` is the connection number given, 0 if none was. */
  datatype Command =
    | Open(id: int, how: Opening)
    | Close(id: int)
    | CloseAll(id: int)
    | Query(id: int, ping: bool)                             // use, or a MySQL command
    | ReportOne(id: int, ping: bool)                         // status of the given connection
    | ReportAll(pings: seq<bool>)                            // status with no connection given
    | StatusCode(id: int, ping: bool, answers: bool)         // status with an output value
    | Offline(id: int)                                       // serialize, deserialize, version

  /** `Done`, for a query: past the connection check; for a report: printed. */
  datatype Reply = Done | Slot(index: nat) | Code(n: nat) | Refused

  // ---------- one call ----------

  const INITIAL: State :=
    State(seq(MAXCONN, _ => None), seq(MAXCONN, _ => false), {}, [])

  ghost predicate Sized(s: State) {
    |s.conn| == |s.isopen| == MAXCONN
  }

  /** `mysql_close`, and the slot emptied. */
  function CloseSlot(s: State, i: nat): State
    requires i < |s.conn| && i < |s.isopen|
  {
    var t := s.(conn := s.conn[i := None], isopen := s.isopen[i := false]);
    match s.conn[i]
    case None => t
    case Some(h) => t.(live := s.live - {h}, log := s.log + [Closed(h)])
  }

  /** `mysql_init` on the slot's handle. */
  function InitSlot(s: State, i: nat, init: Option<nat>): State
    requires i < |s.conn|
  {
    match init
    case None => s.(conn := s.conn[i := None])
    case Some(h) =>
      if s.conn[i].Some? then s
      else s.(conn := s.conn[i := Some(h)], live := s.live + {h}, log := s.log + [Inited(h)])
  }

  function OpenSlot(s: State, i: nat, how: Opening): State
    requires i < |s.conn| && i < |s.isopen|
  {
    var t := if s.isopen[i] then CloseSlot(s, i) else s;
    var u := InitSlot(t, i, how.init);
    if Opens(how) then u.(isopen := u.isopen[i := true]) else u
  }

  predicate Opens(how: Opening) {
    how.init.Some? && !how.customTls && how.connects && how.answers
  }

  /** A failed ping marks the slot closed but keeps its handle. */
  function PingSlot(s: State, i: nat, ping: bool): State
    requires i < |s.isopen|
  {
    if s.isopen[i] && !ping then s.(isopen := s.isopen[i := false]) else s
  }

  function CloseFrom(s: State, i: nat): State
    requires Sized(s) && i <= MAXCONN
    decreases MAXCONN - i
  {
    if i == MAXCONN then s else CloseFrom(if s.isopen[i] then CloseSlot(s, i) else s, i + 1)
  }

  function PingFrom(s: State, i: nat, pings: seq<bool>): State
    requires Sized(s) && i <= MAXCONN == |pings|
    decreases MAXCONN - i
  {
    if i == MAXCONN then s else PingFrom(PingSlot(s, i, pings[i]), i + 1, pings)
  }

  /** The least closed slot from `i` on; MAXCONN if there is none. */
  function FirstClosed(isopen: seq<bool>, i: nat): (j: nat)
    requires i <= |isopen|
    ensures i <= j <= |isopen|
    decreases |isopen| - i
  {
    if i < |isopen| && isopen[i] then FirstClosed(isopen, i + 1) else i
  }

  predicate InTable(id: int) {
    0 <= id < MAXCONN
  }

  /** The connection number, or the least free one when asked to choose. */
  function SlotOf(s: State, id: int): int {
    if id == -1 then FirstClosed(s.isopen, 0) else id
  }

  function Step(s: State, c: Command): (State, Reply)
    requires Sized(s) && (c.ReportAll? ==> |c.pings| == MAXCONN)
  {
    match c
    case Open(id, how) =>
      var i := SlotOf(s, id);
      if !InTable(i) then (s, Refused) else (OpenSlot(s, i, how), if Opens(how) then Slot(i) else Refused)
    case Close(id) =>
      if !InTable(id) then (s, Refused) else (if s.isopen[id] then CloseSlot(s, id) else s, Done)
    case CloseAll(id) =>
      if !InTable(id) then (s, Refused) else (CloseFrom(s, 0), Done)
    case Query(id, ping) =>
      if !InTable(id) then (s, Refused)
      else (PingSlot(s, id, ping), if s.isopen[id] && ping then Done else Refused)
    case ReportOne(id, ping) =>
      if !InTable(id) then (s, Refused)
      else (PingSlot(s, id, ping), if s.isopen[id] && !ping then Refused else Done)
    case ReportAll(pings) =>
      var n := CountOpen(s.isopen, MAXCONN);
      if n == 0 then (s, Done)
      else if n == 1 && s.isopen[0] then (PingSlot(s, 0, pings[0]), if pings[0] then Done else Refused)
      else (PingFrom(s, 0, pings), Done)
    case StatusCode(id, ping, answers) =>
      if !InTable(id) then (s, Refused)
      else (PingSlot(s, id, ping && answers),
            Code(if !s.isopen[id] then 1 else if !ping then 2 else if !answers then 3 else 0))
    case Offline(id) => (s, if InTable(id) then Done else Refused)
  }

  /** How many of the first `n` slots are open. */
  function CountOpen(isopen: seq<bool>, n: nat): (k: nat)
    requires n <= |isopen|
    ensures k <= n
  {
    if n == 0 then 0 else CountOpen(isopen, n - 1) + if isopen[n - 1] then 1 else 0
  }

  // ---------- every run ----------

  /** `mysql_init` allocates a handle not in use. */
  ghost predicate Plausible(s: State, c: Command) {
    && (c.ReportAll? ==> |c.pings| == MAXCONN)
    && (c.Open? && c.how.init.Some? ==> c.how.init.value !in s.live)
  }

  ghost function Run(s: State, cs: seq<Command>): Option<State>
    decreases |cs|
  {
    if !Sized(s) then None
    else if cs == [] then Some(s)
    else if !Plausible(s, cs[0]) then None
    else Run(Step(s, cs[0]).0, cs[1..])
  }

  /** The handles allocated and not closed, by the log. */
  ghost function LiveAfter(log: seq<Event>): set<nat> {
    if log == [] then {}
    else
      var before := LiveAfter(log[..|log| - 1]);
      match log[|log| - 1]
      case Inited(h) => before + {h}
      case Closed(h) => before - {h}
  }

  /** Only live handles are ever closed, and only dead ones allocated: in
      particular no handle is closed twice without being allocated in between. */
  ghost predicate Lawful(log: seq<Event>) {
    log == [] ||
    (Lawful(log[..|log| - 1]) &&
     match log[|log| - 1]
     case Inited(h) => h !in LiveAfter(log[..|log| - 1])
     case Closed(h) => h in LiveAfter(log[..|log| - 1]))
  }

  ghost predicate Safe(s: State) {
    && Sized(s)
    && (forall i :: 0 <= i < MAXCONN && s.isopen[i] ==> s.conn[i].Some?)
    && (forall i :: 0 <= i < MAXCONN && s.conn[i].Some? ==> s.conn[i].value in s.live)
    && (forall i, j :: 0 <= i < j < MAXCONN && s.conn[i].Some? ==> s.conn[i] != s.conn[j])
    && Lawful(s.log) && s.live == LiveAfter(s.log)
  }

  lemma {:induction false} LogSnoc(log: seq<Event>, e: Event)
    ensures LiveAfter(log + [e]) == if e.Inited? then LiveAfter(log) + {e.handle} else LiveAfter(log) - {e.handle}
    ensures Lawful(log + [e]) <==> Lawful(log) && (e.Inited? <==> e.handle !in LiveAfter(log))
  {
    assert (log + [e])[..|log|] == log;
  }

  lemma {:induction false} BackToLife(log: seq<Event>, i: nat, j: nat, h: nat)
    requires i < j <= |log| && log[i] == Closed(h) && h in LiveAfter(log[..j])
    ensures exists k :: i < k < j && log[k] == Inited(h)
    decreases j
  {
    assert log[..j][..j - 1] == log[..j - 1];
    if log[j - 1] != Inited(h) {
      BackToLife(log, i, j - 1, h);
    }
  }

  /** Between two closes of the same handle it was allocated anew. */
  lemma {:induction false} NeverClosedTwice(log: seq<Event>, i: nat, j: nat, h: nat)
    requires Lawful(log) && i < j < |log| && log[i] == log[j] == Closed(h)
    ensures exists k :: i < k < j && log[k] == Inited(h)
  {
    if j == |log| - 1 {
      BackToLife(log, i, j, h);
    } else {
      NeverClosedTwice(log[..|log| - 1], i, j, h);
      var k :| i < k < j && log[..|log| - 1][k] == Inited(h);
      assert log[k] == Inited(h);
    }
  }

  lemma {:induction false} CloseSafe(s: State, i: nat)
    requires Safe(s) && i < MAXCONN
    ensures Safe(CloseSlot(s, i))
  {
    if s.conn[i].Some? {
      LogSnoc(s.log, Closed(s.conn[i].value));
    }
  }

  /** A handle not in use goes into an empty slot. */
  lemma {:induction false} NewHandleDistinct(s: State, i: nat, h: nat, t: seq<Option<nat>>)
    requires Safe(s) && i < MAXCONN && h !in s.live && t == s.conn[i := Some(h)]
    ensures forall j, k :: 0 <= j < k < MAXCONN && t[j].Some? ==> t[j] != t[k]
  {
    forall j, k | 0 <= j < k < MAXCONN && t[j].Some?
      ensures t[j] != t[k]
    {
      assert s.conn[j].Some? ==> s.conn[j] != s.conn[k] && s.conn[j].value in s.live;
      assert s.conn[k].Some? ==> s.conn[k].value in s.live;
    }
  }

  lemma {:induction false} InitSafe(s: State, i: nat, init: Option<nat>)
    requires Safe(s) && i < MAXCONN && !s.isopen[i] && (init.Some? ==> init.value !in s.live)
    ensures Safe(InitSlot(s, i, init))
  {
    if init.Some? && s.conn[i].None? {
      var t := InitSlot(s, i, init);
      LogSnoc(s.log, Inited(init.value));
      NewHandleDistinct(s, i, init.value, t.conn);
      forall j | 0 <= j < MAXCONN && t.conn[j].Some?
        ensures t.conn[j].value in t.live
      {
        assert j != i ==> t.conn[j] == s.conn[j];
      }
    }
  }

  lemma {:induction false} OpenSafe(s: State, i: nat, how: Opening)
    requires Safe(s) && i < MAXCONN && (how.init.Some? ==> how.init.value !in s.live)
    ensures Safe(OpenSlot(s, i, how))
  {
    if s.isopen[i] {
      CloseSafe(s, i);
      InitSafe(CloseSlot(s, i), i, how.init);
    } else {
      InitSafe(s, i, how.init);
    }
  }

  lemma {:induction false} CloseFromSafe(s: State, i: nat)
    requires Safe(s) && i <= MAXCONN
    ensures Safe(CloseFrom(s, i))
    decreases MAXCONN - i
  {
    if i < MAXCONN {
      CloseSafe(s, i);
      CloseFromSafe(if s.isopen[i] then CloseSlot(s, i) else s, i + 1);
    }
  }

  lemma {:induction false} PingSafe(s: State, i: nat, ping: bool)
    requires Safe(s) && i < MAXCONN
    ensures Safe(PingSlot(s, i, ping))
  {
  }

  lemma {:induction false} PingFromSafe(s: State, i: nat, pings: seq<bool>)
    requires Safe(s) && i <= MAXCONN == |pings|
    ensures Safe(PingFrom(s, i, pings))
    decreases MAXCONN - i
  {
    if i < MAXCONN {
      PingSafe(s, i, pings[i]);
      PingFromSafe(PingSlot(s, i, pings[i]), i + 1, pings);
    }
  }

  lemma {:induction false} OpenStepSafe(s: State, id: int, how: Opening)
    requires Safe(s) && Plausible(s, Open(id, how))
    ensures Safe(Step(s, Open(id, how)).0)
  {
    var i := SlotOf(s, id);
    if InTable(i) {
      OpenSafe(s, i, how);
    }
  }

  lemma {:induction false} CloseStepSafe(s: State, c: Command)
    requires Safe(s) && (c.Close? || c.CloseAll?)
    ensures Safe(Step(s, c).0)
  {
    CloseFromSafe(s, 0);
    if c.Close? && InTable(c.id) {
      CloseSafe(s, c.id);
    }
  }

  lemma {:induction false} ReportPings(s: State, pings: seq<bool>) returns (t: State)
    requires Sized(s) && |pings| == MAXCONN
    ensures t == Step(s, ReportAll(pings)).0
    ensures t == s || t == PingSlot(s, 0, pings[0]) || t == PingFrom(s, 0, pings)
  {
    t := Step(s, ReportAll(pings)).0;
  }

  lemma {:induction false} ReportStepSafe(s: State, pings: seq<bool>)
    requires Safe(s) && |pings| == MAXCONN
    ensures Safe(Step(s, ReportAll(pings)).0)
  {
    var t := ReportPings(s, pings);
    PingSafe(s, 0, pings[0]);
    PingFromSafe(s, 0, pings);
  }

  lemma {:induction false} PingStepSafe(s: State, c: Command)
    requires Safe(s) && (c.Query? || c.ReportOne? || c.StatusCode? || c.Offline?)
    ensures Safe(Step(s, c).0)
  {
    if !c.Offline? && InTable(c.id) {
      PingSafe(s, c.id, if c.StatusCode? then c.ping && c.answers else c.ping);
    }
  }

  lemma {:induction false} StepSafe(s: State, c: Command)
    requires Safe(s) && Plausible(s, c)
    ensures Safe(Step(s, c).0)
  {
    if c.Open? {
      OpenStepSafe(s, c.id, c.how);
    } else if c.Close? || c.CloseAll? {
      CloseStepSafe(s, c);
    } else if c.ReportAll? {
      ReportStepSafe(s, c.pings);
    } else {
      PingStepSafe(s, c);
    }
  }

  /** Whatever is called, in whatever order, and whatever the library answers:
      open slots hold live handles, no handle is in two slots, and every close
      in the log was of a handle live at that point. */
  lemma {:induction false} EveryRunIsSafe(s: State, cs: seq<Command>)
    requires Safe(s) && Run(s, cs).Some?
    ensures Safe(Run(s, cs).value)
    decreases |cs|
  {
    if cs != [] {
      StepSafe(s, cs[0]);
      EveryRunIsSafe(Step(s, cs[0]).0, cs[1..]);
    }
  }

  lemma {:induction false} InitialIsSafe()
    ensures Safe(INITIAL)
  {
  }

  // ---------- what single calls do ----------

  ghost predicate OthersSame(s: State, t: State, i: nat)
    requires Sized(s) && Sized(t)
  {
    forall j :: 0 <= j < MAXCONN && j != i ==> t.conn[j] == s.conn[j] && t.isopen[j] == s.isopen[j]
  }

  lemma {:induction false} FirstClosedIsLeast(isopen: seq<bool>, i: nat)
    requires i <= |isopen|
    ensures forall j :: i <= j < FirstClosed(isopen, i) ==> isopen[j]
    ensures FirstClosed(isopen, i) < |isopen| ==> !isopen[FirstClosed(isopen, i)]
    decreases |isopen| - i
  {
    if i < |isopen| && isopen[i] {
      FirstClosedIsLeast(isopen, i + 1);
    }
  }

  /** Asking for a free connection gets the least closed slot, leaves all other
      slots alone, and is refused unseen only when all are open. */
  lemma {:induction false} AutoOpen(s: State, how: Opening)
    requires Safe(s) && Plausible(s, Open(-1, how))
    ensures var (t, reply) := Step(s, Open(-1, how));
            var i := FirstClosed(s.isopen, 0);
            && (i == MAXCONN <==> forall j :: 0 <= j < MAXCONN ==> s.isopen[j])
            && (i == MAXCONN ==> t == s && reply == Refused)
            && (i < MAXCONN ==> !s.isopen[i] && forall j :: 0 <= j < i ==> s.isopen[j])
            && (i < MAXCONN ==> Sized(t) && OthersSame(s, t, i) && t.isopen[i] == Opens(how))
            && (reply == Slot(i) <==> i < MAXCONN && Opens(how))
  {
    FirstClosedIsLeast(s.isopen, 0);
  }

  lemma {:induction false} AutoOpenClosesNothing(s: State, how: Opening)
    requires Safe(s) && Plausible(s, Open(-1, how))
    ensures var t := Step(s, Open(-1, how)).0;
            t.log == s.log || (how.init.Some? && t.log == s.log + [Inited(how.init.value)])
  {
    FirstClosedIsLeast(s.isopen, 0);
  }

  predicate OnOne(c: Command) {
    !c.CloseAll? && !c.ReportAll?
  }

  /** The connection a call is on. */
  function Target(s: State, c: Command): int
    requires OnOne(c)
  {
    if c.Open? then SlotOf(s, c.id) else c.id
  }

  /** A call on one connection leaves every other slot alone. */
  lemma {:induction false} OthersUntouched(s: State, c: Command)
    requires Safe(s) && Plausible(s, c) && OnOne(c)
    ensures Sized(Step(s, c).0)
    ensures if InTable(Target(s, c)) then OthersSame(s, Step(s, c).0, Target(s, c)) else Step(s, c) == (s, Refused)
  {
  }

  /** What the reply says of that connection: after an open, a query or a status
      code, whether it is open; after a close, that it is not; a report is refused
      exactly if it found the connection broken. */
  lemma {:induction false} RepliesTell(s: State, c: Command)
    requires Safe(s) && Plausible(s, c) && OnOne(c) && InTable(Target(s, c))
    ensures var (t, reply) := Step(s, c);
            var i := Target(s, c);
            && Sized(t)
            && (c.Open? ==> (t.isopen[i] <==> reply == Slot(i)))
            && (c.Query? ==> (t.isopen[i] <==> reply == Done))
            && (c.StatusCode? ==> (t.isopen[i] <==> reply == Code(0)))
            && (c.Close? ==> reply == Done && !t.isopen[i])
            && (c.ReportOne? ==> (reply == Refused <==> s.isopen[i] && !t.isopen[i]))
            && (c.Offline? ==> t == s)
  {
  }

  /** The handles closed when the open slots from `i` on are, in order. */
  ghost function Closings(conn: seq<Option<nat>>, isopen: seq<bool>, i: nat): seq<Event>
    requires i <= |conn| == |isopen|
    decreases |conn| - i
  {
    if i == |conn| then []
    else (if isopen[i] && conn[i].Some? then [Closed(conn[i].value)] else []) + Closings(conn, isopen, i + 1)
  }

  lemma {:induction false} ClosingsLocal(s: State, t: State, i: nat)
    requires Sized(s) && Sized(t) && i <= MAXCONN
    requires forall j :: i <= j < MAXCONN ==> t.conn[j] == s.conn[j] && t.isopen[j] == s.isopen[j]
    ensures Closings(t.conn, t.isopen, i) == Closings(s.conn, s.isopen, i)
    decreases MAXCONN - i
  {
    if i < MAXCONN {
      ClosingsLocal(s, t, i + 1);
    }
  }

  /** After closing all, no slot is open; those that were open are empty, and a
      handle kept by a slot that was not stays as it was. */
  lemma {:induction false} CloseAllCloses(s: State, i: nat)
    requires Safe(s) && i <= MAXCONN
    ensures Sized(CloseFrom(s, i))
    ensures forall j :: 0 <= j < i ==> CloseFrom(s, i).conn[j] == s.conn[j] && CloseFrom(s, i).isopen[j] == s.isopen[j]
    ensures forall j :: i <= j < MAXCONN ==> !CloseFrom(s, i).isopen[j]
    ensures forall j :: i <= j < MAXCONN ==> CloseFrom(s, i).conn[j] == if s.isopen[j] then None else s.conn[j]
    decreases MAXCONN - i
  {
    if i < MAXCONN {
      CloseSafe(s, i);
      CloseAllCloses(if s.isopen[i] then CloseSlot(s, i) else s, i + 1);
    }
  }

  /** The handles of the slots that were open are the ones closed, in order. */
  lemma {:induction false} CloseAllLog(s: State, i: nat)
    requires Sized(s) && i <= MAXCONN
    ensures CloseFrom(s, i).log == s.log + Closings(s.conn, s.isopen, i)
    decreases MAXCONN - i
  {
    if i < MAXCONN {
      var t := if s.isopen[i] then CloseSlot(s, i) else s;
      var first := if s.isopen[i] && s.conn[i].Some? then [Closed(s.conn[i].value)] else [];
      CloseAllLog(t, i + 1);
      ClosingsLocal(s, t, i + 1);
      assert t.log == s.log + first;
      assert s.log + (first + Closings(s.conn, s.isopen, i + 1)) == t.log + Closings(s.conn, s.isopen, i + 1);
    }
  }

  /** An open slot from `i` on holds `h`. */
  ghost predicate OpenHolds(conn: seq<Option<nat>>, isopen: seq<bool>, i: nat, h: nat)
    requires |conn| == |isopen|
  {
    exists j :: i <= j < |conn| && isopen[j] && conn[j] == Some(h)
  }

  lemma {:induction false} OpenHoldsNext(conn: seq<Option<nat>>, isopen: seq<bool>, i: nat, h: nat)
    requires i < |conn| == |isopen|
    ensures OpenHolds(conn, isopen, i, h) <==> (isopen[i] && conn[i] == Some(h)) || OpenHolds(conn, isopen, i + 1, h)
  {
  }

  lemma {:induction false} ClosingsLive(log: seq<Event>, conn: seq<Option<nat>>, isopen: seq<bool>, i: nat, h: nat)
    requires i <= |conn| == |isopen|
    ensures h in LiveAfter(log + Closings(conn, isopen, i))
       <==> h in LiveAfter(log) && !OpenHolds(conn, isopen, i, h)
    decreases |conn| - i
  {
    if i == |conn| {
      assert log + [] == log;
    } else {
      var first := if isopen[i] && conn[i].Some? then [Closed(conn[i].value)] else [];
      var rest := Closings(conn, isopen, i + 1);
      assert log + (first + rest) == (log + first) + rest;
      ClosingsLive(log + first, conn, isopen, i + 1, h);
      OpenHoldsNext(conn, isopen, i, h);
      if first == [] {
        assert log + first == log;
      } else {
        LogSnoc(log, first[0]);
      }
    }
  }

  /** And a handle stays live exactly if no open slot held it. */
  lemma {:induction false} CloseAllLive(s: State, h: nat)
    requires Safe(s)
    ensures h in CloseFrom(s, 0).live <==> h in s.live && !OpenHolds(s.conn, s.isopen, 0, h)
  {
    CloseFromSafe(s, 0);
    CloseAllLog(s, 0);
    ClosingsLive(s.log, s.conn, s.isopen, 0, h);
  }

  // ---------- which handles are lost ----------

  /** A live handle that is in no slot, so that nothing can ever close it. */
  ghost predicate Lost(s: State, h: nat)
    requires Sized(s)
  {
    h in s.live && forall i :: 0 <= i < MAXCONN ==> s.conn[i] != Some(h)
  }

  /** The one way to lose a handle: `mysql_init` fails on a closed slot that
      still keeps it. */
  ghost predicate Loses(s: State, c: Command, h: nat)
    requires Sized(s)
  {
    && c.Open? && c.how.init.None?
    && var i := SlotOf(s, c.id); InTable(i) && !s.isopen[i] && s.conn[i] == Some(h)
  }

  lemma {:induction false} CloseLost(s: State, i: nat, h: nat)
    requires Safe(s) && i < MAXCONN
    ensures Lost(CloseSlot(s, i), h) <==> Lost(s, h)
  {
    var t := CloseSlot(s, i);
    assert forall j :: 0 <= j < MAXCONN && j != i ==> t.conn[j] == s.conn[j];
  }

  lemma {:induction false} InitLost(s: State, i: nat, init: Option<nat>, h: nat)
    requires Safe(s) && i < MAXCONN && !s.isopen[i] && (init.Some? ==> init.value !in s.live)
    ensures Lost(InitSlot(s, i, init), h) <==> Lost(s, h) || (init.None? && s.conn[i] == Some(h))
  {
    var t := InitSlot(s, i, init);
    assert forall j :: 0 <= j < MAXCONN && j != i ==> t.conn[j] == s.conn[j];
    assert t.conn[i] == if init.Some? && s.conn[i].Some? then s.conn[i] else init;
    if init.None? && s.conn[i] == Some(h) {
      forall j | 0 <= j < MAXCONN
        ensures t.conn[j] != Some(h)
      {
        assert i < j ==> s.conn[i] != s.conn[j];
        assert j < i ==> s.conn[j] != s.conn[i];
      }
    }
  }

  lemma {:induction false} OpenLost(s: State, i: nat, how: Opening, h: nat)
    requires Safe(s) && i < MAXCONN && (how.init.Some? ==> how.init.value !in s.live)
    ensures Lost(OpenSlot(s, i, how), h) <==> Lost(s, h) || (how.init.None? && !s.isopen[i] && s.conn[i] == Some(h))
  {
    var t := if s.isopen[i] then CloseSlot(s, i) else s;
    CloseLost(s, i, h);
    CloseSafe(s, i);
    InitLost(t, i, how.init, h);
    assert Lost(OpenSlot(s, i, how), h) == Lost(InitSlot(t, i, how.init), h);
  }

  lemma {:induction false} CloseFromLost(s: State, i: nat, h: nat)
    requires Safe(s) && i <= MAXCONN
    ensures Sized(CloseFrom(s, i)) && (Lost(CloseFrom(s, i), h) <==> Lost(s, h))
    decreases MAXCONN - i
  {
    if i < MAXCONN {
      CloseSafe(s, i);
      CloseLost(s, i, h);
      CloseFromLost(if s.isopen[i] then CloseSlot(s, i) else s, i + 1, h);
    }
  }

  lemma {:induction false} PingFromKeeps(s: State, i: nat, pings: seq<bool>)
    requires Sized(s) && i <= MAXCONN == |pings|
    ensures PingFrom(s, i, pings).conn == s.conn && PingFrom(s, i, pings).live == s.live
    ensures Sized(PingFrom(s, i, pings))
    decreases MAXCONN - i
  {
    if i < MAXCONN {
      PingFromKeeps(PingSlot(s, i, pings[i]), i + 1, pings);
    }
  }

  lemma {:induction false} ReportKeeps(s: State, pings: seq<bool>)
    requires Sized(s) && |pings| == MAXCONN
    ensures var t := Step(s, ReportAll(pings)).0; Sized(t) && t.conn == s.conn && t.live == s.live
  {
    PingFromKeeps(s, 0, pings);
  }

  lemma {:induction false} PingKeeps(s: State, c: Command)
    requires Sized(s) && (c.Query? || c.ReportOne? || c.StatusCode? || c.Offline?)
    ensures var t := Step(s, c).0; Sized(t) && t.conn == s.conn && t.live == s.live
  {
  }

  lemma {:induction false} SameHandlesLost(s: State, t: State, h: nat)
    requires Sized(s) && Sized(t) && t.conn == s.conn && t.live == s.live
    ensures Lost(t, h) <==> Lost(s, h)
  {
  }

  lemma {:induction false} PingStepLost(s: State, c: Command, h: nat)
    requires Safe(s) && Plausible(s, c) && !c.Open? && !c.Close? && !c.CloseAll?
    ensures Sized(Step(s, c).0) && (Lost(Step(s, c).0, h) <==> Lost(s, h))
  {
    if c.ReportAll? {
      ReportKeeps(s, c.pings);
    } else {
      PingKeeps(s, c);
    }
    SameHandlesLost(s, Step(s, c).0, h);
  }

  lemma {:induction false} StepLost(s: State, c: Command, h: nat)
    requires Safe(s) && Plausible(s, c)
    ensures Sized(Step(s, c).0) && (Lost(Step(s, c).0, h) <==> Lost(s, h) || Loses(s, c, h))
  {
    if c.Open? {
      var i := SlotOf(s, c.id);
      if InTable(i) {
        OpenLost(s, i, c.how, h);
      }
    } else if c.Close? {
      if InTable(c.id) {
        CloseLost(s, c.id, h);
      }
    } else if c.CloseAll? {
      CloseFromLost(s, 0, h);
    } else {
      PingStepLost(s, c, h);
    }
  }

  ghost predicate LosesInRun(s: State, cs: seq<Command>, h: nat)
    requires Safe(s) && Run(s, cs).Some?
    decreases |cs|
  {
    if cs == [] then false
    else
      StepSafe(s, cs[0]);
      Loses(s, cs[0], h) || LosesInRun(Step(s, cs[0]).0, cs[1..], h)
  }

  /** Over a whole run a handle is lost exactly when some open in it loses it;
      all others have been closed or are still in a slot. */
  lemma {:induction false} RunLoses(s: State, cs: seq<Command>, h: nat)
    requires Safe(s) && Run(s, cs).Some?
    ensures Sized(Run(s, cs).value)
    ensures Lost(Run(s, cs).value, h) <==> Lost(s, h) || LosesInRun(s, cs, h)
    decreases |cs|
  {
    if cs != [] {
      StepSafe(s, cs[0]);
      StepLost(s, cs[0], h);
      RunLoses(Step(s, cs[0]).0, cs[1..], h);
    }
  }

  /** There is such a run: opening fails after `mysql_init`, and the next open of
      the same connection fails in it. */
  lemma {:induction false} ARunThatLoses()
    ensures var cs := [Open(0, Opening(Some(1), false, false, false)), Open(0, Opening(None, false, false, false))];
            var end := Run(INITIAL, cs);
            end.Some? && Sized(end.value) && Lost(end.value, 1)
  {
    var c1, c2 := Open(0, Opening(Some(1), false, false, false)), Open(0, Opening(None, false, false, false));
    var s1 := Step(INITIAL, c1).0;
    assert s1.conn[0] == Some(1) && s1.live == {1};
    var s2 := Step(s1, c2).0;
    assert [c1, c2][1..] == [c2] && [c2][1..] == [];
    assert Run(s2, []) == Some(s2);
    assert Run(s1, [c2]) == Some(s2);
    assert Run(INITIAL, [c1, c2]) == Some(s2);
  }

  // ---------- the table itself ----------

  class Table {
    const conn: array<Option<nat>>
    const isopen: array<bool>
    ghost var live: set<nat>
    ghost var log: seq<Event>

    ghost predicate Valid()
      reads this
    {
      conn.Length == isopen.Length == MAXCONN
    }

    ghost function Value(): State
      reads this, conn, isopen
    {
      State(conn[..], isopen[..], live, log)
    }

    constructor ()
      ensures Valid() && fresh(conn) && fresh(isopen) && Value() == INITIAL
    {
      conn := new Option<nat>[MAXCONN](_ => None);
      isopen := new bool[MAXCONN](_ => false);
      live, log := {}, [];
    }

    /** `mysql_close(conn); isopen = false; conn = NULL`. */
    method CloseAt(i: nat)
      requires Valid() && i < MAXCONN
      modifies this, conn, isopen
      ensures Value() == CloseSlot(old(Value()), i)
    {
      if conn[i].Some? {
        live, log := live - {conn[i].value}, log + [Closed(conn[i].value)];
      }
      isopen[i] := false;
      conn[i] := None;
    }

    /** The OPEN branch, after the slot is known. */
    method OpenAt(i: nat, how: Opening) returns (ok: bool)
      requires Valid() && i < MAXCONN
      modifies this, conn, isopen
      ensures Value() == OpenSlot(old(Value()), i, how) && ok == Opens(how)
    {
      if isopen[i] {
        CloseAt(i);
      }
      if how.init.None? {
        conn[i] := None;
        return false;
      }
      if conn[i].None? {
        live, log := live + {how.init.value}, log + [Inited(how.init.value)];
        conn[i] := how.init;
      }
      if how.customTls || !how.connects || !how.answers {
        return false;
      }
      isopen[i] := true;
      return true;
    }

    method PingAt(i: nat, ping: bool)
      requires Valid() && i < MAXCONN
      modifies isopen
      ensures Value() == PingSlot(old(Value()), i, ping)
    {
      if isopen[i] && !ping {
        isopen[i] := false;
      }
    }

    /** The scan for a free slot. */
    method FindClosed() returns (i: nat)
      requires Valid()
      ensures i == FirstClosed(isopen[..], 0)
    {
      i := 0;
      while i < MAXCONN && isopen[i]
        invariant i <= MAXCONN && FirstClosed(isopen[..], 0) == FirstClosed(isopen[..], i)
      {
        i := i + 1;
      }
    }

    method CloseEvery()
      requires Valid()
      modifies this, conn, isopen
      ensures Value() == CloseFrom(old(Value()), 0)
    {
      for i := 0 to MAXCONN
        invariant CloseFrom(Value(), i) == CloseFrom(old(Value()), 0)
      {
        if isopen[i] {
          CloseAt(i);
        }
      }
    }

    /** The report on all connections. */
    method ReportEvery(pings: seq<bool>) returns (reply: Reply)
      requires Valid() && |pings| == MAXCONN
      modifies isopen
      ensures (Value(), reply) == Step(old(Value()), ReportAll(pings))
    {
      var nconn := 0;
      for j := 0 to MAXCONN
        invariant nconn == CountOpen(isopen[..], j)
      {
        if isopen[j] {
          nconn := nconn + 1;
        }
      }
      if nconn == 0 {
        return Done;
      }
      if nconn == 1 && isopen[0] {
        PingAt(0, pings[0]);
        return if pings[0] then Done else Refused;
      }
      for j := 0 to MAXCONN
        invariant PingFrom(Value(), j, pings) == PingFrom(old(Value()), 0, pings)
      {
        PingAt(j, pings[j]);
      }
      return Done;
    }

    /** One call. */
    method Execute(c: Command) returns (reply: Reply)
      requires Valid() && (c.ReportAll? ==> |c.pings| == MAXCONN)
      modifies this, conn, isopen
      ensures Valid() && (Value(), reply) == Step(old(Value()), c)
    {
      if c.ReportAll? {
        reply := ReportEvery(c.pings);
        return;
      }
      var id := c.id;
      if c.Open? && id == -1 {
        id := FindClosed();
      }
      if !InTable(id) {
        return Refused;
      }
      match c
      case Open(_, how) =>
        var ok := OpenAt(id, how);
        return if ok then Slot(id) else Refused;
      case Close(_) =>
        if isopen[id] {
          CloseAt(id);
        }
        return Done;
      case CloseAll(_) =>
        CloseEvery();
        return Done;
      case Query(_, ping) =>
        var open := isopen[id];
        PingAt(id, ping);
        return if open && ping then Done else Refused;
      case ReportOne(_, ping) =>
        var open := isopen[id];
        PingAt(id, ping);
        return if open && !ping then Refused else Done;
      case StatusCode(_, ping, answers) =>
        var open := isopen[id];
        PingAt(id, ping && answers);
        return Code(if !open then 1 else if !ping then 2 else if !answers then 3 else 0);
      case Offline(_) =>
        return Done;
    }
  }
}
