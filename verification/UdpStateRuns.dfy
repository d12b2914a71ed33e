/**
 * The UDP state table over unbounded runs: every datagram is accounted for, queues
 * are suffixes of what was accepted, and a retired socket value stays without a row
 * for a whole ring.
 */
module UdpStateRuns {
  import opened Basics
  import opened UdpState
  import opened UdpStateInvariant

  /** A run: any well-formed table followed by any calls, one state per call boundary. */
  ghost predicate IsRun(states: seq<Table>, calls: seq<Call>) {
    && |states| == |calls| + 1
    && states[0].Valid()
    && forall k {:trigger calls[k]} :: 0 <= k < |calls| ==> states[k + 1] == Perform(states[k], calls[k]).table
  }

  lemma {:induction false} RunIsValid(states: seq<Table>, calls: seq<Call>, k: nat)
    requires IsRun(states, calls) && k < |states|
    ensures states[k].Valid()
  {
    hide Perform;
    if k > 0 {
      RunIsValid(states, calls, k - 1);
      CallKeepsValid(states[k - 1], calls[k - 1]);
    }
  }

  /** Retired keys and rows in use never exceed 511 together, in any state of any run. */
  lemma RingIsBoundedForever(states: seq<Table>, calls: seq<Call>, k: nat)
    requires IsRun(states, calls) && k < |states|
    ensures |states[k].retired| + |states[k].UsedRows()| <= 511
  {
    RunIsValid(states, calls, k);
    RingIsBounded(states[k]);
  }

  // ------------------------------------------------------------ conservation

  /** Datagrams queued in the first n rows. */
  ghost function Queued(rows: Rows, n: nat): nat
    requires n <= MAX_ROWS
  {
    if n == 0 then 0 else Queued(rows, n - 1) + rows[n - 1].state.Load()
  }

  lemma {:induction false} QueuedUpdate(rows: Rows, i: nat, row: Row, n: nat)
    requires i < MAX_ROWS && n <= MAX_ROWS
    ensures Queued(rows[i := row], n) == Queued(rows, n) + if i < n then row.state.Load() - rows[i].state.Load() else 0
  {
    if n > 0 {
      QueuedUpdate(rows, i, row, n - 1);
    }
  }

  /** Every datagram the table still answers for, and every one it has written off. */
  ghost function Account(t: Table): nat {
    Queued(t.rows, MAX_ROWS) + t.dropped + t.discarded + t.refused
  }

  lemma InstallConserves(t: Table, i: nat, app: Handle, tick: nat)
    requires i < MAX_ROWS && (!t.rows[i].used ==> t.rows[i].state.Load() == 0)
    ensures Account(t.Install(i, app, tick)) == Account(t)
  {
    QueuedUpdate(t.rows, i, Row(Blank(app, tick), true), MAX_ROWS);
  }

  lemma OpenConserves(t: Table, app: Handle, tick: nat)
    requires t.RowsOk()
    ensures Account(t.Open(app, tick).table) == Account(t)
  {
    match t.RowOf(app)
    case Some(i) => QueuedUpdate(t.rows, i, t.rows[i].(state := t.rows[i].state.(lastUse := tick)), MAX_ROWS);
    case None =>
      if t.Inserting().SlotFor(app).Some? {
        InstallConserves(t.Inserting(), t.Inserting().SlotFor(app).value, app, tick);
      }
  }

  lemma EnqueueConserves(t: Table, i: nat, d: Datagram, rxSide: bool)
    requires i < MAX_ROWS
    ensures Account(t.Enqueue(i, d, rxSide).table) == Account(t) + 1
  {
    if |d.payload| <= QUEUE_MAX_BYTES {
      QueuedUpdate(t.rows, i, t.Enqueue(i, d, rxSide).table.rows[i], MAX_ROWS);
    }
  }

  lemma PopConserves(t: Table, app: Handle, tick: nat, rxSide: bool)
    ensures Account(t.Pop(app, tick, rxSide).table) + (if t.Pop(app, tick, rxSide).popped.Some? then 1 else 0)
         == Account(t)
  {
    if t.RowOf(app).Some? {
      var i := t.RowOf(app).value;
      QueuedUpdate(t.rows, i, t.Pop(app, tick, rxSide).table.rows[i], MAX_ROWS);
    }
  }

  /** Rewriting a row without touching its queues. */
  lemma SameLoadConserves(t: Table, i: nat, s: State)
    requires i < MAX_ROWS && s.Load() == t.rows[i].state.Load()
    ensures Account(t.WithState(i, s)) == Account(t)
  {
    QueuedUpdate(t.rows, i, t.rows[i].(state := s), MAX_ROWS);
  }

  lemma AnnotateConserves(t: Table, app: Handle, tick: nat, note: Note)
    requires t.RowsOk()
    ensures Account(t.Annotate(app, tick, note).table) == Account(t)
  {
    OpenConserves(t, app, tick);
    var admitted := t.Open(app, tick);
    if admitted.row.Some? {
      SameLoadConserves(admitted.table, admitted.row.value, Noted(admitted.table.rows[admitted.row.value].state, note));
    }
  }

  lemma RetireConserves(t: Table, app: Handle)
    ensures Account(t.Retire(app).table) == Account(t)
  {
    if t.RowOf(app).Some? {
      QueuedUpdate(t.rows, t.RowOf(app).value, UNUSED_ROW, MAX_ROWS);
    }
  }

  lemma PinsConserve(t: Table, app: Handle)
    ensures Account(t.Pin(app).table) == Account(t.Unpin(app).table) == Account(t)
  {
    if t.RowOf(app).Some? {
      var i := t.RowOf(app).value;
      SameLoadConserves(t, i, t.Pin(app).table.rows[i].state);
      SameLoadConserves(t, i, t.Unpin(app).table.rows[i].state);
    }
  }

  lemma PushConserves(t: Table, app: Handle, tick: nat, d: Datagram, rxSide: bool)
    requires t.RowsOk()
    ensures Account(t.Push(app, tick, d, rxSide).table) == Account(t) + 1
  {
    OpenConserves(t, app, tick);
    var admitted := t.Open(app, tick);
    if admitted.row.Some? {
      EnqueueConserves(admitted.table, admitted.row.value, d, rxSide);
    }
  }

  /** A push adds one datagram to the account, a successful pop takes one out, nothing else moves it. */
  lemma CallConserves(t: Table, call: Call)
    requires t.RowsOk()
    ensures Account(Perform(t, call).table) + (if Perform(t, call).popped.Some? then 1 else 0)
         == Account(t) + if call.PushCall? then 1 else 0
  {
    hide Account;
    match call
    case OpenCall(app, tick) => OpenConserves(t, app, tick);
    case RetireCall(app) => RetireConserves(t, app);
    case PushCall(app, tick, d, rxSide) => PushConserves(t, app, tick, d, rxSide);
    case PopCall(app, tick, rxSide) => PopConserves(t, app, tick, rxSide);
    case AnnotateCall(app, tick, note) => AnnotateConserves(t, app, tick, note);
    case PinCall(app) => PinsConserve(t, app);
    case UnpinCall(app) => PinsConserve(t, app);
  }

  ghost function Pushes(calls: seq<Call>, n: nat): nat
    requires n <= |calls|
  {
    if n == 0 then 0 else Pushes(calls, n - 1) + if calls[n - 1].PushCall? then 1 else 0
  }

  ghost function Popped(states: seq<Table>, calls: seq<Call>, n: nat): nat
    requires n <= |calls| && n <= |states|
  {
    if n == 0 then 0
    else Popped(states, calls, n - 1) + if Perform(states[n - 1], calls[n - 1]).popped.Some? then 1 else 0
  }

  /** Every datagram ever pushed was popped, dropped, discarded or refused, or is still queued. */
  lemma {:induction false} DatagramsAreConserved(states: seq<Table>, calls: seq<Call>, n: nat)
    requires IsRun(states, calls) && n < |states|
    ensures Account(states[0]) + Pushes(calls, n) == Popped(states, calls, n) + Account(states[n])
    ensures states[0] == EMPTY_TABLE ==>
              Pushes(calls, n) == Popped(states, calls, n) + states[n].dropped + states[n].discarded
                                + states[n].refused + Queued(states[n].rows, MAX_ROWS)
  {
    hide Perform;
    if n > 0 {
      DatagramsAreConserved(states, calls, n - 1);
      RunIsValid(states, calls, n - 1);
      CallConserves(states[n - 1], calls[n - 1]);
    }
    EmptyQueues(MAX_ROWS);
  }

  lemma {:induction false} EmptyQueues(n: nat)
    requires n <= MAX_ROWS
    ensures Queued(EMPTY_TABLE.rows, n) == 0
  {
    if n > 0 {
      EmptyQueues(n - 1);
    }
  }
}
