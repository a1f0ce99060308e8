/** What each call does to the table, from the slots alone. */
module Calls {
  import opened Bytes
  import opened Connections

  /** The table starts with 20 empty slots, none open, and no handle allocated. */
  lemma {:induction false} StartsEmpty()
    ensures |INITIAL.conn| == |INITIAL.isopen| == 20 && INITIAL.live == {} && INITIAL.log == []
    ensures forall i :: 0 <= i < 20 ==> INITIAL.conn[i] == None && !INITIAL.isopen[i]
  {
  }

  /** The number given with the call, if it is on one connection or is a closeall. */
  function Number(c: Command): int
    requires !c.ReportAll?
  {
    c.id
  }

  /** A number outside the table is refused, but for -1 with an open. */
  lemma {:induction false} OutsideRefused(s: State, c: Command)
    requires Safe(s) && !c.ReportAll? && !(0 <= Number(c) < 20) && !(c.Open? && Number(c) == -1)
    ensures Step(s, c) == (s, Refused)
  {
  }

  // ---------- open ----------

  ghost predicate Free(s: State, i: nat)
    requires Sized(s)
  {
    i < 20 && !s.isopen[i] && forall j :: 0 <= j < i ==> s.isopen[j]
  }

  /** With -1 the least slot that is not open is the one opened. */
  lemma {:induction false} OpenChooses(s: State, i: nat, how: Opening)
    requires Safe(s) && Free(s, i)
    ensures Step(s, Open(-1, how)) == Step(s, Open(i, how))
  {
    FirstClosedIsLeast(s.isopen, 0);
    var k := FirstClosed(s.isopen, 0);
    assert k < 20;
    assert k == i;
  }

  lemma {:induction false} OpenRefusedIfFull(s: State, how: Opening)
    requires Safe(s) && forall j :: 0 <= j < 20 ==> s.isopen[j]
    ensures Step(s, Open(-1, how)) == (s, Refused)
  {
    FirstClosedIsLeast(s.isopen, 0);
  }

  predicate Succeeds(how: Opening) {
    how.init.Some? && !how.customTls && how.connects && how.answers
  }

  /** Opening a slot that is open closes its handle first; `mysql_init` then
      allocates a new one, or fails and leaves the slot empty. */
  lemma {:induction false} OpenOverOpen(s: State, i: nat, how: Opening, h: nat)
    requires Safe(s) && i < 20 && s.isopen[i] && s.conn[i] == Some(h)
    ensures Step(s, Open(i, how)) ==
              (State(s.conn[i := how.init], s.isopen[i := Succeeds(how)],
                     if how.init.Some? then s.live - {h} + {how.init.value} else s.live - {h},
                     s.log + (if how.init.Some? then [Closed(h), Inited(how.init.value)] else [Closed(h)])),
               if Succeeds(how) then Slot(i) else Refused)
  {
    var t := CloseSlot(s, i);
    assert s.conn[i := None][i := how.init] == s.conn[i := how.init];
    assert s.isopen[i := false][i := Succeeds(how)] == s.isopen[i := Succeeds(how)];
    if how.init.Some? {
      assert s.log + [Closed(h)] + [Inited(how.init.value)] == s.log + [Closed(h), Inited(how.init.value)];
    }
  }

  /** An empty slot gets the handle `mysql_init` allocates, even if connecting
      fails after that. */
  lemma {:induction false} OpenEmpty(s: State, i: nat, how: Opening)
    requires Safe(s) && i < 20 && !s.isopen[i] && s.conn[i] == None
    ensures Step(s, Open(i, how)) ==
              (State(s.conn[i := how.init], s.isopen[i := Succeeds(how)],
                     if how.init.Some? then s.live + {how.init.value} else s.live,
                     s.log + (if how.init.Some? then [Inited(how.init.value)] else [])),
               if Succeeds(how) then Slot(i) else Refused)
  {
    assert s.isopen[i := false] == s.isopen;
    assert s.log + [] == s.log;
  }

  /** A handle kept from before is used again; nothing is allocated or closed. */
  lemma {:induction false} OpenKept(s: State, i: nat, how: Opening, h: nat)
    requires Safe(s) && i < 20 && !s.isopen[i] && s.conn[i] == Some(h)
    ensures Step(s, Open(i, how)) ==
              (s.(conn := s.conn[i := if how.init.Some? then Some(h) else None],
                  isopen := s.isopen[i := Succeeds(how)]),
               if Succeeds(how) then Slot(i) else Refused)
  {
    assert s.conn[i := Some(h)] == s.conn;
    assert s.isopen[i := false] == s.isopen;
  }

  // ---------- close ----------

  /** Closing an open slot closes the handle it holds and empties the slot. */
  lemma {:induction false} CloseOpen(s: State, i: nat, h: nat)
    requires Safe(s) && i < 20 && s.isopen[i] && s.conn[i] == Some(h)
    ensures Step(s, Close(i)) ==
              (State(s.conn[i := None], s.isopen[i := false], s.live - {h}, s.log + [Closed(h)]), Done)
  {
  }

  /** Closing any other changes nothing. */
  lemma {:induction false} CloseClosed(s: State, i: nat)
    requires Safe(s) && i < 20 && !s.isopen[i]
    ensures Step(s, Close(i)) == (s, Done)
  {
  }

  /** The handles of the open slots below `n`, in order. */
  ghost function OpenHandles(s: State, n: nat): seq<Event>
    requires Sized(s) && n <= 20
  {
    if n == 0 then []
    else OpenHandles(s, n - 1) + if s.isopen[n - 1] && s.conn[n - 1].Some? then [Closed(s.conn[n - 1].value)] else []
  }

  lemma {:induction false} ClosingsAreOpen(s: State, n: nat)
    requires Sized(s) && n <= 20
    ensures Closings(s.conn, s.isopen, 0) == OpenHandles(s, n) + Closings(s.conn, s.isopen, n)
  {
    if n == 0 {
      assert [] + Closings(s.conn, s.isopen, 0) == Closings(s.conn, s.isopen, 0);
    } else {
      ClosingsAreOpen(s, n - 1);
    }
  }

  /** Closing all, whichever valid number is given with it. */
  lemma {:induction false} CloseAllEmpties(s: State, id: nat)
    requires Safe(s) && id < 20
    ensures var (t, reply) := Step(s, CloseAll(id));
            && Sized(t) && reply == Done && t.log == s.log + OpenHandles(s, 20)
            && forall j :: 0 <= j < 20 ==> !t.isopen[j] && t.conn[j] == if s.isopen[j] then None else s.conn[j]
  {
    CloseAllCloses(s, 0);
    CloseAllLog(s, 0);
    ClosingsAreOpen(s, 20);
    assert OpenHandles(s, 20) + [] == OpenHandles(s, 20);
  }

  lemma {:induction false} CloseAllKills(s: State, id: nat, h: nat)
    requires Safe(s) && id < 20
    ensures h in Step(s, CloseAll(id)).0.live
       <==> h in s.live && forall j :: 0 <= j < 20 && s.isopen[j] ==> s.conn[j] != Some(h)
  {
    CloseAllLive(s, h);
  }

  // ---------- pings ----------

  /** A query goes on, with nothing changed, if and only if the connection is open
      and answers; otherwise it is refused, and the slot is marked closed. */
  lemma {:induction false} QueryGoesOn(s: State, i: nat, ping: bool)
    requires Safe(s) && i < 20
    ensures Step(s, Query(i, ping)) == (s, Done) <==> s.isopen[i] && ping
    ensures !(s.isopen[i] && ping) ==> Step(s, Query(i, ping)) == (s.(isopen := s.isopen[i := false]), Refused)
  {
    assert s.isopen[i] || s.isopen[i := false] == s.isopen;
  }

  /** A report on one connection is refused, and marks it closed, if and only if it
      was open and does not answer; otherwise nothing changes. */
  lemma {:induction false} ReportRefused(s: State, i: nat, ping: bool)
    requires Safe(s) && i < 20
    ensures Step(s, ReportOne(i, ping)) ==
              if s.isopen[i] && !ping then (s.(isopen := s.isopen[i := false]), Refused) else (s, Done)
  {
  }

  /** The status codes: 1 for a connection not open, 2 for one that does not answer,
      3 for one without a status, 0 for a working one, which alone stays open. */
  lemma {:induction false} StatusCodes(s: State, i: nat, ping: bool, answers: bool)
    requires Safe(s) && i < 20
    ensures var reply := Step(s, StatusCode(i, ping, answers)).1;
            && (reply == Code(0) <==> s.isopen[i] && ping && answers)
            && (reply == Code(1) <==> !s.isopen[i])
            && (reply == Code(2) <==> s.isopen[i] && !ping)
            && (reply == Code(3) <==> s.isopen[i] && ping && !answers)
    ensures Step(s, StatusCode(i, ping, answers)).0
         == s.(isopen := s.isopen[i := s.isopen[i] && ping && answers])
  {
    assert s.isopen[i := s.isopen[i]] == s.isopen;
  }

  /** Slot 0 is open and no other. */
  ghost predicate OnlyFirst(s: State)
    requires Sized(s)
  {
    s.isopen[0] && forall j :: 0 < j < 20 ==> !s.isopen[j]
  }

  lemma {:induction false} CountZero(isopen: seq<bool>, n: nat)
    requires n <= |isopen|
    ensures CountOpen(isopen, n) == 0 <==> forall j :: 0 <= j < n ==> !isopen[j]
  {
    if n != 0 {
      CountZero(isopen, n - 1);
    }
  }

  lemma {:induction false} CountFirst(isopen: seq<bool>, n: nat)
    requires 0 < n <= |isopen| && isopen[0]
    ensures CountOpen(isopen, n) == 1 <==> forall j :: 0 < j < n ==> !isopen[j]
    ensures CountOpen(isopen, n) >= 1
  {
    if n == 1 {
      assert CountOpen(isopen, 0) == 0;
    } else {
      CountFirst(isopen, n - 1);
    }
  }

  lemma {:induction false} PingsAnd(s: State, i: nat, pings: seq<bool>)
    requires Sized(s) && i <= 20 == |pings|
    ensures var t := PingFrom(s, i, pings);
            && Sized(t) && t.conn == s.conn && t.live == s.live && t.log == s.log
            && forall j :: 0 <= j < 20 ==> t.isopen[j] == (s.isopen[j] && (j < i || pings[j]))
    decreases 20 - i
  {
    if i < 20 {
      PingsAnd(PingSlot(s, i, pings[i]), i + 1, pings);
    }
  }

  lemma {:induction false} CountMeaning(s: State)
    requires Sized(s)
    ensures CountOpen(s.isopen, 20) == 0 <==> forall j :: 0 <= j < 20 ==> !s.isopen[j]
    ensures CountOpen(s.isopen, 20) == 1 && s.isopen[0] <==> OnlyFirst(s)
  {
    CountZero(s.isopen, 20);
    if s.isopen[0] {
      CountFirst(s.isopen, 20);
    }
  }

  /** A report on all connections is refused if and only if slot 0 alone was open and
      does not answer. */
  lemma {:induction false} ReportAllReply(s: State, pings: seq<bool>)
    requires Safe(s) && |pings| == 20
    ensures Step(s, ReportAll(pings)).1 == if OnlyFirst(s) && !pings[0] then Refused else Done
  {
    CountMeaning(s);
  }

  /** It leaves open just those that were open and answer. */
  lemma {:induction false} ReportAllPings(s: State, pings: seq<bool>)
    requires Safe(s) && |pings| == 20
    ensures var t := Step(s, ReportAll(pings)).0;
            && Sized(t) && t.conn == s.conn && t.live == s.live && t.log == s.log
            && forall j :: 0 <= j < 20 ==> t.isopen[j] == (s.isopen[j] && pings[j])
  {
    CountMeaning(s);
    var n, t := CountOpen(s.isopen, 20), Step(s, ReportAll(pings)).0;
    if n == 0 {
      assert t == s;
    } else if n == 1 && s.isopen[0] {
      assert t == PingSlot(s, 0, pings[0]);
    } else {
      assert t == PingFrom(s, 0, pings);
      PingsAnd(s, 0, pings);
    }
  }

  /** Commands that need no connection change nothing. */
  lemma {:induction false} OfflineKeeps(s: State, i: nat)
    requires Safe(s) && i < 20
    ensures Step(s, Offline(i)) == (s, Done)
  {
  }
}
