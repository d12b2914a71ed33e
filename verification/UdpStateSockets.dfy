/**
 * The UDP state table seen from one socket: a map from socket values to states.
 * What a call does to its own socket, and the little it can do to any other.
 */
module UdpStateSockets {
  import opened Basics
  import opened UdpState
  import opened UdpStateInvariant

  /** What the table holds for a socket. */
  function Sock(t: Table, app: Handle): Option<State> {
    match t.RowOf(app)
    case Some(i) => Some(t.rows[i].state)
    case None => None
  }

  lemma HolderIsTheRow(t: Table, i: nat, app: Handle)
    requires t.RowsOk() && i < MAX_ROWS && t.Holds(i, app)
    ensures t.RowOf(app) == Some(i) && Sock(t, app) == Some(t.rows[i].state)
  {
    assert t.RowOf(app).Some?;
  }

  /** Rows that hold the same state for a socket answer the same, wherever they sit. */
  lemma SameRowSameSock(t: Table, later: Table, app: Handle)
    requires t.RowsOk() && later.RowsOk()
    requires forall i :: 0 <= i < MAX_ROWS && (t.Holds(i, app) || later.Holds(i, app)) ==> t.rows[i] == later.rows[i]
    ensures Sock(later, app) == Sock(t, app)
  {
    if t.RowOf(app).Some? {
      assert t.Holds(t.RowOf(app).value, app);
      HolderIsTheRow(later, t.RowOf(app).value, app);
    } else if later.RowOf(app).Some? {
      assert later.Holds(later.RowOf(app).value, app);
      HolderIsTheRow(t, later.RowOf(app).value, app);
    }
  }

  lemma WithStateSock(t: Table, i: nat, s: State, app: Handle)
    requires t.RowsOk() && SameSocket(t, i, s)
    ensures t.WithState(i, s).RowsOk()
    ensures Sock(t.WithState(i, s), app) == if app == s.app then Some(s) else Sock(t, app)
  {
    var later := t.WithState(i, s);
    if app == s.app {
      HolderIsTheRow(later, i, app);
    } else {
      SameRowSameSock(t, later, app);
    }
  }

  lemma InstallSock(t: Table, i: nat, app: Handle, tick: nat, other: Handle)
    requires t.RowsOk() && i < MAX_ROWS && t.Rowless(app)
    ensures t.Install(i, app, tick).RowsOk()
    ensures Sock(t.Install(i, app, tick), other)
         == if other == app then Some(Blank(app, tick)) else if t.Holds(i, other) then None else Sock(t, other)
  {
    var later := t.Install(i, app, tick);
    InstallKeepsRows(t, i, app, tick);
    if other == app {
      HolderIsTheRow(later, i, app);
    } else if t.Holds(i, other) {
      assert later.Rowless(other);
      NoRowIsRowless(later, other);
    } else {
      SameRowSameSock(t, later, other);
    }
  }

  lemma RetireSock(t: Table, app: Handle, other: Handle)
    requires t.RowsOk()
    ensures Sock(t.Retire(app).table, other) == if other == app then None else Sock(t, other)
  {
    var later := t.Retire(app).table;
    RetireKeepsRows(t, app);
    if other == app {
      if t.RowOf(app).Some? {
        assert later.Rowless(app);
        NoRowIsRowless(later, app);
      }
    } else {
      SameRowSameSock(t, later, other);
    }
  }

  lemma {:induction false} RowIgnoresRing(t: Table, later: Table, app: Handle, i: nat)
    requires i <= MAX_ROWS && t.rows == later.rows
    ensures t.RowFrom(app, i) == later.RowFrom(app, i)
    decreases MAX_ROWS - i
  {
    if i < MAX_ROWS {
      RowIgnoresRing(t, later, app, i + 1);
    }
  }

  /** Opening a socket: its own row is touched or blank, another's is untouched or evicted, and then it was unpinned. */
  lemma OpenSock(t: Table, app: Handle, tick: nat, other: Handle)
    requires t.RowsOk()
    ensures t.Open(app, tick).table.RowsOk()
    ensures var a := t.Open(app, tick);
            && (a.row.Some? <==> Sock(a.table, app).Some?)
            && (a.row.Some? ==> a.table.Holds(a.row.value, app))
            && (Sock(t, app).Some? ==> Sock(a.table, app) == Some(Sock(t, app).value.(lastUse := tick)))
            && (Sock(t, app).None? && Sock(a.table, app).Some? ==> Sock(a.table, app) == Some(Blank(app, tick)))
            && (other != app && Sock(a.table, other) != Sock(t, other) ==>
                  Sock(a.table, other) == None && Sock(t, app).None? && Sock(t, other).value.pinned == 0)
  {
    match t.RowOf(app)
    case Some(i) =>
      WithStateSock(t, i, t.rows[i].state.(lastUse := tick), app);
      WithStateSock(t, i, t.rows[i].state.(lastUse := tick), other);
    case None =>
      var inserting := t.Inserting();
      RowIgnoresRing(t, inserting, app, 0);
      RowIgnoresRing(t, inserting, other, 0);
      NoRowIsRowless(t, app);
      AdmitSock(inserting, app, tick, other);
  }

  lemma AdmitSock(t: Table, app: Handle, tick: nat, other: Handle)
    requires t.RowsOk() && t.Rowless(app)
    ensures t.Admit(app, tick).table.RowsOk()
    ensures var a := t.Admit(app, tick);
            && (a.row.Some? <==> Sock(a.table, app) == Some(Blank(app, tick)))
            && (a.row.None? <==> Sock(a.table, app) == None)
            && (a.row.Some? ==> a.table.Holds(a.row.value, app) && !Quarantined(t.retired, t.insertions, app))
            && (other != app && Sock(a.table, other) != Sock(t, other) ==>
                  Sock(a.table, other) == None && Sock(t, other).Some? && Sock(t, other).value.pinned == 0)
  {
    NoRowIsRowless(t, app);
    if !Quarantined(t.retired, t.insertions, app) && t.SlotFor(app).Some? {
      var i := t.SlotFor(app).value;
      InstallSock(t, i, app, tick, app);
      InstallSock(t, i, app, tick, other);
      if t.Holds(i, other) {
        HolderIsTheRow(t, i, other);
      }
    }
  }

  // ------------------------------------------------------------ one call, one socket

  /** What a call makes of the state its own socket already has. */
  function Effect(call: Call, s: State): State {
    match call
    case OpenCall(_, tick) => s.(lastUse := tick)
    case PushCall(_, tick, d, rxSide) => s.(lastUse := tick).Enqueued(d, rxSide)
    case PopCall(_, tick, rxSide) => s.(lastUse := tick).Dequeued(rxSide)
    case AnnotateCall(_, tick, note) => Noted(s.(lastUse := tick), note)
    case PinCall(_) => s.(pinned := s.pinned + 1)
    case UnpinCall(_) => if s.pinned == 0 then s else s.(pinned := s.pinned - 1)
    case RetireCall(_) => s
  }

  /** The calls that may give a socket a row. */
  predicate Opens(call: Call) { call.OpenCall? || call.PushCall? || call.AnnotateCall? }

  /** A state rewritten for the socket it was opened for. */
  lemma RewriteSock(t: Table, i: nat, s: State, app: Handle, other: Handle)
    requires t.RowsOk() && i < MAX_ROWS && t.Holds(i, app) && SameSocket(t, i, s)
    ensures t.WithState(i, s).RowsOk()
    ensures Sock(t.WithState(i, s), app) == Some(s)
    ensures other != app ==> Sock(t.WithState(i, s), other) == Sock(t, other)
  {
    WithStateSock(t, i, s, app);
    WithStateSock(t, i, s, other);
  }

  /** An effect keeps the socket, and keeps both queues within budget. */
  lemma EffectKeepsBudget(call: Call, s: State)
    requires WithinBudget(s.tx) && WithinBudget(s.rx)
    ensures Effect(call, s).app == s.app
    ensures WithinBudget(Effect(call, s).tx) && WithinBudget(Effect(call, s).rx)
  {
    if call.PushCall? && |call.dgram.payload| <= QUEUE_MAX_BYTES {
      RoomIsMade(s.Of(call.rxSide), call.dgram);
    }
  }

  /** How much a call may do to a socket, given what the table held for it before and holds after. */
  ghost predicate Explained(call: Call, app: Handle, before: Option<State>, after: Option<State>) {
    if app == call.app then
      match before
      case Some(s) => after == if call.RetireCall? then None else Some(Effect(call, s))
      case None => after == None || (Opens(call) && after == Some(Effect(call, Blank(app, call.tick))))
    else
      after == before || (after == None && Opens(call) && before.value.pinned == 0)
  }

  lemma TouchedThenRewritten(t: Table, call: Call, later: Table, other: Handle)
    requires t.RowsOk() && Opens(call)
    requires var a := t.Open(call.app, call.tick);
             match a.row
             case None => later.rows == a.table.rows
             case Some(i) => a.table.Holds(i, call.app) && SameSocket(a.table, i, later.rows[i].state)
                             && later.rows == a.table.WithState(i, later.rows[i].state).rows
                             && later.rows[i].state == Effect(call, a.table.rows[i].state)
    ensures Explained(call, call.app, Sock(t, call.app), Sock(later, call.app))
    ensures Explained(call, other, Sock(t, other), Sock(later, other))
  {
    hide Table.RowsOk;
    var a := t.Open(call.app, call.tick);
    OpenSock(t, call.app, call.tick, other);
    match a.row
    case None =>
      RowIgnoresRing(a.table, later, call.app, 0);
      RowIgnoresRing(a.table, later, other, 0);
    case Some(i) =>
      var written := a.table.WithState(i, later.rows[i].state);
      HolderIsTheRow(a.table, i, call.app);
      RewriteSock(a.table, i, later.rows[i].state, call.app, other);
      RowIgnoresRing(written, later, call.app, 0);
      RowIgnoresRing(written, later, other, 0);
  }

  lemma OpeningCallExplained(t: Table, call: Call, other: Handle)
    requires t.RowsOk() && Opens(call)
    ensures Explained(call, other, Sock(t, other), Sock(Perform(t, call).table, other))
  {
    hide Table.RowsOk, WithinBudget;
    var a := t.Open(call.app, call.tick);
    OpenSock(t, call.app, call.tick, other);
    if a.row.Some? {
      QueuesAreWithinBudget(a.table, a.row.value);
      EffectKeepsBudget(call, a.table.rows[a.row.value].state);
    }
    TouchedThenRewritten(t, call, Perform(t, call).table, other);
  }

  lemma RowCallExplained(t: Table, call: Call, other: Handle)
    requires t.RowsOk() && (call.PopCall? || call.PinCall? || call.UnpinCall?)
    ensures Explained(call, other, Sock(t, other), Sock(Perform(t, call).table, other))
  {
    hide Table.RowsOk, WithinBudget;
    if t.RowOf(call.app).Some? {
      var i := t.RowOf(call.app).value;
      QueuesAreWithinBudget(t, i);
      EffectKeepsBudget(call, t.rows[i].state);
      assert Perform(t, call).table == t.WithState(i, Effect(call, t.rows[i].state));
      RewriteSock(t, i, Effect(call, t.rows[i].state), call.app, other);
    }
  }

  /**
   * Every call acts on the map from sockets to states one socket at a time: its own
   * changes by the call's effect, from a blank state if it had none; any other is left
   * alone, or evicted by an opening call while nobody pinned it.
   */
  lemma CallIsExplained(t: Table, call: Call, app: Handle)
    requires t.RowsOk()
    ensures Explained(call, app, Sock(t, app), Sock(Perform(t, call).table, app))
  {
    if Opens(call) {
      OpeningCallExplained(t, call, app);
    } else if call.RetireCall? {
      RetireSock(t, call.app, app);
    } else {
      RowCallExplained(t, call, app);
    }
  }

  /** A pinned socket keeps its row and its queues through every call made for another socket. */
  lemma PinnedIsNeverEvicted(t: Table, call: Call, app: Handle)
    requires t.RowsOk() && Sock(t, app).Some? && Sock(t, app).value.pinned > 0 && call.app != app
    ensures Sock(Perform(t, call).table, app) == Sock(t, app)
  {
    CallIsExplained(t, call, app);
  }

  // ------------------------------------------------------------ eviction

  /** The row an admission takes from another socket is the least recently used unpinned one of a full table. */
  lemma AdmissionTakesTheOldest(t: Table, app: Handle, tick: nat, gone: Handle, other: Handle)
    requires t.RowsOk() && t.Rowless(app) && gone != app
    requires Sock(t, gone).Some? && Sock(t.Admit(app, tick).table, gone).None?
    requires Sock(t, other).Some? && Sock(t, other).value.pinned == 0
    ensures forall i :: 0 <= i < MAX_ROWS ==> t.rows[i].used
    ensures Sock(t, gone).value.lastUse <= Sock(t, other).value.lastUse
  {
    var i, j := t.SlotFor(app).value, t.RowOf(other).value;
    InstallSock(t, i, app, tick, gone);
    assert t.Holds(i, gone);
    HolderIsTheRow(t, i, gone);
    assert t.Evictable(j, app);
  }

  lemma OpeningTakesTheOldest(t: Table, app: Handle, tick: nat, gone: Handle, other: Handle)
    requires t.RowsOk() && gone != app
    requires Sock(t, gone).Some? && Sock(t.Open(app, tick).table, gone).None?
    requires Sock(t, other).Some? && Sock(t, other).value.pinned == 0
    ensures forall i :: 0 <= i < MAX_ROWS ==> t.rows[i].used
    ensures Sock(t, gone).value.lastUse <= Sock(t, other).value.lastUse
  {
    var inserting := t.Inserting();
    OpenSock(t, app, tick, gone);
    NoRowIsRowless(t, app);
    assert t.Rowless(app) ==> inserting.Rowless(app);
    RowIgnoresRing(t, inserting, gone, 0);
    RowIgnoresRing(t, inserting, other, 0);
    AdmissionTakesTheOldest(inserting, app, tick, gone, other);
  }

  /** After the opening half of a call, only its own socket changes again. */
  lemma OpeningHalfDecides(t: Table, call: Call, other: Handle)
    requires t.RowsOk() && Opens(call) && other != call.app
    ensures Sock(Perform(t, call).table, other) == Sock(t.Open(call.app, call.tick).table, other)
  {
    hide Table.RowsOk, WithinBudget;
    var a, later := t.Open(call.app, call.tick), Perform(t, call).table;
    OpenSock(t, call.app, call.tick, other);
    hide Trimmed;
    match a.row
    case None => RowIgnoresRing(a.table, later, other, 0);
    case Some(i) =>
      var s := a.table.rows[i].state;
      QueuesAreWithinBudget(a.table, i);
      EffectKeepsBudget(call, s);
      WritesTheEffect(t, call, i);
      hide Perform, Effect, Table.Open, Sock;
      RewriteSock(a.table, i, Effect(call, s), call.app, other);
      RowIgnoresRing(a.table.WithState(i, Effect(call, s)), later, other, 0);
      SockOfSameRows(a.table.WithState(i, Effect(call, s)), later, other);
  }

  lemma SockOfSameRows(t: Table, later: Table, app: Handle)
    requires t.rows == later.rows && t.RowFrom(app, 0) == later.RowFrom(app, 0)
    ensures Sock(later, app) == Sock(t, app)
  {
  }

  /** An opening call that finds a row writes its effect there and nowhere else. */
  lemma WritesTheEffect(t: Table, call: Call, i: nat)
    requires Opens(call) && t.Open(call.app, call.tick).row == Some(i) && i < MAX_ROWS
    requires t.Open(call.app, call.tick).table.rows[i].state.lastUse == call.tick
    ensures var a := t.Open(call.app, call.tick).table;
            Perform(t, call).table.rows == a.WithState(i, Effect(call, a.rows[i].state)).rows
  {
    hide Table.Open, Trimmed;
    var s := t.Open(call.app, call.tick).table.rows[i].state;
    assert s.(lastUse := call.tick) == s;
  }

  /**
   * When a call made for one socket evicts another, the table was full and no unpinned socket had
   * been used less recently.
   */
  lemma EvictsTheLeastRecentlyUsed(t: Table, call: Call, gone: Handle, other: Handle)
    requires t.RowsOk() && gone != call.app
    requires Sock(t, gone).Some? && Sock(Perform(t, call).table, gone).None?
    requires Sock(t, other).Some? && Sock(t, other).value.pinned == 0
    ensures forall i :: 0 <= i < MAX_ROWS ==> t.rows[i].used
    ensures Sock(t, gone).value.lastUse <= Sock(t, other).value.lastUse
  {
    hide Perform, Table.RowsOk, Sock;
    CallIsExplained(t, call, gone);
    OpeningHalfDecides(t, call, gone);
    OpeningTakesTheOldest(t, call.app, call.tick, gone, other);
  }
}
