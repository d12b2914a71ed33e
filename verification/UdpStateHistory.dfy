/**
 * What a socket's row remembers of its past: the queues are suffixes of what was accepted, and a
 * retired value waits out its ring.
 */
module UdpStateHistory {
  import opened Basics
  import opened UdpState
  import opened UdpStateInvariant
  import opened UdpStateRuns
  import opened UdpStateSockets

  // ------------------------------------------------------------ queues are suffixes

  ghost predicate IsSuffix(a: seq<Datagram>, b: seq<Datagram>) {
    |a| <= |b| && a == b[|b| - |a|..]
  }

  lemma SuffixShrinks(a: seq<Datagram>, b: seq<Datagram>, lost: nat)
    requires IsSuffix(a, b) && lost <= |a|
    ensures IsSuffix(a[lost..], b)
  {
  }

  lemma SuffixGrows(a: seq<Datagram>, b: seq<Datagram>, d: Datagram)
    requires IsSuffix(a, b)
    ensures IsSuffix(a + [d], b + [d])
  {
    assert (b + [d])[|b| - |a|..] == b[|b| - |a|..] + [d];
  }

  /** The datagram a call queues in one direction of its socket, once that socket has a row. */
  function Taken(call: Call, app: Handle, rxSide: bool): seq<Datagram> {
    if call.PushCall? && call.app == app && call.rxSide == rxSide && |call.dgram.payload| <= QUEUE_MAX_BYTES
    then [call.dgram] else []
  }

  /** Taken is exactly what the push reports as not refused. */
  lemma TakenIsNotRefused(t: Table, call: Call)
    requires t.RowsOk() && call.PushCall? && Sock(Perform(t, call).table, call.app).Some?
    ensures Taken(call, call.app, call.rxSide) != [] <==> Perform(t, call).pushed != Some(Refused)
  {
    var a := t.Open(call.app, call.tick);
    OpenSock(t, call.app, call.tick, call.app);
    if a.row.None? {
      RowIgnoresRing(a.table, Perform(t, call).table, call.app, 0);
    }
  }

  /** The datagrams accepted for a socket and direction since its row was last created. */
  ghost function Log(states: seq<Table>, calls: seq<Call>, app: Handle, rxSide: bool, n: nat): seq<Datagram>
    requires n <= |calls| && n < |states|
  {
    match Sock(states[n], app)
    case None => []
    case Some(s) =>
      if n == 0 then s.Of(rxSide).items
      else (if Sock(states[n - 1], app).Some? then Log(states, calls, app, rxSide, n - 1) else [])
           + Taken(calls[n - 1], app, rxSide)
  }

  /** An effect drops some prefix of a queue and appends what was taken. */
  lemma EffectOnQueue(call: Call, s: State, rxSide: bool) returns (lost: nat)
    requires WithinBudget(s.tx) && WithinBudget(s.rx)
    ensures lost <= |s.Of(rxSide).items|
    ensures Effect(call, s).Of(rxSide).items == s.Of(rxSide).items[lost..] + Taken(call, call.app, rxSide)
  {
    lost := 0;
    if call.PushCall? && call.rxSide == rxSide && |call.dgram.payload| <= QUEUE_MAX_BYTES {
      lost := TrimIsShortest(s.Of(rxSide), |call.dgram.payload|);
    } else if call.PopCall? && call.rxSide == rxSide && s.Of(rxSide).items != [] {
      lost := 1;
    }
  }

  lemma EffectKeepsSuffix(call: Call, s: State, rxSide: bool, log: seq<Datagram>)
    requires WithinBudget(s.tx) && WithinBudget(s.rx) && IsSuffix(s.Of(rxSide).items, log)
    ensures IsSuffix(Effect(call, s).Of(rxSide).items, log + Taken(call, call.app, rxSide))
  {
    var lost := EffectOnQueue(call, s, rxSide);
    SuffixShrinks(s.Of(rxSide).items, log, lost);
    if Taken(call, call.app, rxSide) != [] {
      SuffixGrows(s.Of(rxSide).items[lost..], log, call.dgram);
    }
  }

  lemma SockIsWithinBudget(t: Table, app: Handle)
    requires t.RowsOk() && Sock(t, app).Some?
    ensures WithinBudget(Sock(t, app).value.tx) && WithinBudget(Sock(t, app).value.rx)
  {
  }

  /**
   * What is queued for a socket is always the newest stretch of what was accepted for
   * it since its row was created: nothing is reordered, duplicated, or lost from the middle.
   */
  lemma {:induction false} QueueIsASuffix(states: seq<Table>, calls: seq<Call>, app: Handle, rxSide: bool, n: nat)
    requires IsRun(states, calls) && n < |states| && Sock(states[n], app).Some?
    ensures IsSuffix(Sock(states[n], app).value.Of(rxSide).items, Log(states, calls, app, rxSide, n))
  {
    hide Perform, Effect, Table.RowsOk, Table.RingOk, Table.Amortised, WithinBudget, Sock, IsSuffix;
    if n > 0 {
      var k, call := n - 1, calls[n - 1];
      RunIsValid(states, calls, k);
      CallIsExplained(states[k], call, app);
      var before := Sock(states[k], app);
      if before.Some? {
        QueueIsASuffix(states, calls, app, rxSide, k);
        SockIsWithinBudget(states[k], app);
        if app == call.app {
          EffectKeepsSuffix(call, before.value, rxSide, Log(states, calls, app, rxSide, k));
        } else {
          assert Log(states, calls, app, rxSide, n) == Log(states, calls, app, rxSide, k);
        }
      } else {
        var blank := Blank(app, call.tick);
        EmptyIsSuffix([]);
        BlankIsWithinBudget(app, call.tick);
        EffectKeepsSuffix(call, blank, rxSide, []);
      }
    } else {
      EmptyIsSuffix(Sock(states[0], app).value.Of(rxSide).items);
    }
  }

  lemma EmptyIsSuffix(b: seq<Datagram>)
    ensures IsSuffix([], b) && IsSuffix(b, b)
  {
  }

  lemma BlankIsWithinBudget(app: Handle, tick: nat)
    ensures WithinBudget(Blank(app, tick).tx) && WithinBudget(Blank(app, tick).rx)
  {
  }

  // ------------------------------------------------------------ retired values wait

  /** The key of a retired socket sits in the ring until the clock reads `until`, and the socket has no row. */
  ghost predicate Parked(t: Table, app: Handle, until: nat) {
    RetiredKey(app, until) in t.retired && Sock(t, app).None?
  }

  lemma RetireParks(t: Table, app: Handle)
    requires t.RowsOk() && Sock(t, app).Some?
    ensures Parked(t.Retire(app).table, app, t.insertions + KEY_QUARANTINE)
    ensures t.Retire(app).table.insertions == t.insertions
  {
    RetireSock(t, app, app);
    assert t.Retire(app).table.retired[|t.retired|] == RetiredKey(app, t.insertions + KEY_QUARANTINE);
  }

  /** Opening any socket keeps a running key in the ring, and opening the parked one changes no row. */
  lemma OpenKeepsParked(t: Table, app: Handle, tick: nat, parked: Handle, until: nat)
    requires RetiredKey(parked, until) in t.retired && Sock(t, parked).None?
    ensures var later := t.Open(app, tick).table;
            && t.insertions <= later.insertions <= t.insertions + 1
            && (later.insertions < until ==> RetiredKey(parked, until) in later.retired)
            && (later.insertions < until && app == parked ==> t.Open(app, tick).row == None && later.rows == t.rows)
  {
    PrunedIsFilter(t.retired, t.insertions + 1, RetiredKey(parked, until));
    if app == parked && t.insertions + 1 < until {
      assert Quarantined(t.Inserting().retired, t.Inserting().insertions, app);
    }
  }

  lemma OpeningKeepsParked(t: Table, call: Call, app: Handle, until: nat)
    requires t.RowsOk() && Opens(call) && Parked(t, app, until)
    ensures var later := Perform(t, call).table;
            && t.insertions <= later.insertions <= t.insertions + 1
            && (later.insertions < until ==> Parked(later, app, until))
  {
    hide Table.RowsOk, Explained, Effect;
    OpenKeepsParked(t, call.app, call.tick, app, until);
    if app != call.app {
      ParkedOtherStaysRowless(t, call, app);
    } else if t.Open(app, call.tick).table.insertions < until {
      RowIgnoresRing(t, Perform(t, call).table, app, 0);
    }
  }

  lemma ParkedOtherStaysRowless(t: Table, call: Call, app: Handle)
    requires t.RowsOk() && Sock(t, app).None? && app != call.app
    ensures Sock(Perform(t, call).table, app).None?
  {
    hide Perform, Table.RowsOk, Sock;
    CallIsExplained(t, call, app);
  }

  lemma ParkedStaysParked(t: Table, call: Call, app: Handle, until: nat)
    requires t.RowsOk() && Parked(t, app, until)
    ensures var later := Perform(t, call).table;
            && t.insertions <= later.insertions <= t.insertions + 1
            && (later.insertions < until ==> Parked(later, app, until))
  {
    if Opens(call) {
      OpeningKeepsParked(t, call, app, until);
    } else {
      CallIsExplained(t, call, app);
    }
  }

  /**
   * A retired socket value has no row, and no queue to inherit, until 256 further
   * insertion attempts have been made.
   */
  lemma {:induction false} RetiredValueWaits(states: seq<Table>, calls: seq<Call>, app: Handle, i: nat, k: nat)
    requires IsRun(states, calls) && i < k < |states|
    requires calls[i] == RetireCall(app) && Sock(states[i], app).Some?
    requires states[k].insertions < states[i].insertions + 256
    ensures Parked(states[k], app, states[i].insertions + 256)
    decreases k
  {
    hide Table.RowsOk, Table.RingOk, Table.Amortised, Sock;
    var p := k - 1;
    RunIsValid(states, calls, p);
    if p == i {
      RetireParks(states[i], app);
    } else {
      ClockIsMonotone(states[p], calls[p]);
      RetiredValueWaits(states, calls, app, i, p);
      ParkedStaysParked(states[p], calls[p], app, states[i].insertions + KEY_QUARANTINE);
    }
  }

  lemma ClockIsMonotone(t: Table, call: Call)
    ensures t.insertions <= Perform(t, call).table.insertions <= t.insertions + 1
  {
  }

  /** When a socket value without a row gets one, the row is blank but for the call that opened it. */
  lemma NewRowIsBlank(t: Table, call: Call, app: Handle)
    requires t.RowsOk() && Sock(t, app).None? && Sock(Perform(t, call).table, app).Some?
    ensures Opens(call) && call.app == app
    ensures Sock(Perform(t, call).table, app) == Some(Effect(call, Blank(app, call.tick)))
    ensures Sock(Perform(t, call).table, app).value.tx.items == Taken(call, app, false)
    ensures Sock(Perform(t, call).table, app).value.rx.items == Taken(call, app, true)
    ensures Sock(Perform(t, call).table, app).value.pinned == 0
  {
    hide Perform, Table.RowsOk, Sock;
    CallIsExplained(t, call, app);
  }

  // ------------------------------------------------------------ what callers are told

  /** In every state of every run both queues of every socket are within both budgets, byte counters exact. */
  lemma BudgetsHoldForever(states: seq<Table>, calls: seq<Call>, k: nat, app: Handle)
    requires IsRun(states, calls) && k < |states| && Sock(states[k], app).Some?
    ensures WithinBudget(Sock(states[k], app).value.tx) && WithinBudget(Sock(states[k], app).value.rx)
  {
    RunIsValid(states, calls, k);
    SockIsWithinBudget(states[k], app);
  }

  /** A pop answers the oldest datagram of its queue, and nothing when there is none. */
  lemma PopAnswersTheOldest(t: Table, app: Handle, tick: nat, rxSide: bool)
    ensures t.Pop(app, tick, rxSide).popped
         == if Sock(t, app).None? || Sock(t, app).value.Of(rxSide).items == [] then None
            else Some(Sock(t, app).value.Of(rxSide).items[0])
  {
  }

  /** A push owns up to every loss it causes: dropped_oldest is reported exactly when the drop counter moved. */
  lemma PushReportsItsLosses(t: Table, app: Handle, tick: nat, d: Datagram, rxSide: bool)
    ensures var a := t.Push(app, tick, d, rxSide);
            && (a.pushed == Some(DroppedOldest) <==> a.table.dropped > t.dropped)
            && (a.pushed == Some(Refused) <==> a.table.refused > t.refused)
  {
  }

  /** The decisions noted in `before` still stand in `after`. */
  predicate DecisionsStand(before: State, after: State) {
    && (before.unmanaged ==> after.unmanaged)
    && (before.takeover ==> after.takeover)
  }

  lemma EffectKeepsDecisions(call: Call, s: State)
    ensures DecisionsStand(s, Effect(call, s))
  {
  }

  /**
   * Over any run, what was decided about a socket, permanently unmanaged or taken over,
   * still stands at every later state up to which its row has lived.
   */
  lemma {:induction false} DecisionsStick(states: seq<Table>, calls: seq<Call>, app: Handle, i: nat, k: nat)
    requires IsRun(states, calls) && i <= k < |states|
    requires forall j :: i <= j <= k ==> Sock(states[j], app).Some?
    ensures DecisionsStand(Sock(states[i], app).value, Sock(states[k], app).value)
    decreases k
  {
    hide Perform, Effect, Sock, Table.RowsOk, Table.RingOk, Table.Amortised;
    if i < k {
      var before := Sock(states[k - 1], app).value;
      DecisionsStick(states, calls, app, i, k - 1);
      RunIsValid(states, calls, k - 1);
      CallIsExplained(states[k - 1], calls[k - 1], app);
      EffectKeepsDecisions(calls[k - 1], before);
    }
  }
}
