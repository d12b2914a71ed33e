/**
 * What each call of the UDP state table does, exactly: when a socket gets a row, what the
 * call writes to it, what it costs other sockets, and which counter says so.
 */
module UdpStateCalls {
  import opened Basics
  import opened UdpState
  import opened UdpStateInvariant
  import opened UdpStateRuns
  import opened UdpStateSockets

  // ------------------------------------------------------------ when a socket gets a row

  /** No ring still runs for this value at the next insertion. */
  ghost predicate RingIsOver(t: Table, app: Handle) {
    forall k :: 0 <= k < |t.retired| && t.retired[k].app == app ==> t.retired[k].reusableAt <= t.insertions + 1
  }

  /** Some row is empty or holds a socket nobody pins. */
  ghost predicate HasRoom(t: Table) {
    exists i :: 0 <= i < 256 && (!t.rows[i].used || t.rows[i].state.pinned == 0)
  }

  lemma {:induction false} PrunedNames(keys: seq<RetiredKey>, insertions: nat, app: Handle)
    ensures Quarantined(Pruned(keys, insertions), insertions, app)
       <==> exists k :: 0 <= k < |keys| && keys[k].app == app && insertions < keys[k].reusableAt
  {
    var still := Pruned(keys, insertions);
    forall key: RetiredKey ensures key in still <==> key in keys && insertions < key.reusableAt {
      PrunedIsFilter(keys, insertions, key);
    }
    if k :| 0 <= k < |keys| && keys[k].app == app && insertions < keys[k].reusableAt {
      assert keys[k] in still;
    }
    if k :| 0 <= k < |still| && still[k].app == app && insertions < still[k].reusableAt {
      assert still[k] in keys;
    }
  }

  lemma SlotExactlyWhenRoom(t: Table, app: Handle)
    requires t.Rowless(app)
    ensures t.SlotFor(app).Some? <==> HasRoom(t)
  {
    if t.FreeFrom(0).None? {
      assert forall i :: 0 <= i < MAX_ROWS ==> t.Evictable(i, app) == (t.rows[i].state.pinned == 0);
    }
  }

  lemma AdmittedExactlyWhen(t: Table, app: Handle, tick: nat)
    requires t.Rowless(app)
    ensures t.Inserting().Admit(app, tick).row.Some? <==> RingIsOver(t, app) && HasRoom(t)
  {
    PrunedNames(t.retired, t.insertions + 1, app);
    assert t.Inserting().Rowless(app);
    SlotExactlyWhenRoom(t.Inserting(), app);
    assert HasRoom(t.Inserting()) <==> HasRoom(t);
  }

  /**
   * A socket without a row gets one exactly when no ring still runs for its own value and
   * some row is empty or unpinned; it is then blank.  Otherwise no row changes at all.
   */
  lemma OpenGrantsExactlyWhen(t: Table, app: Handle, tick: nat)
    requires t.RowsOk() && Sock(t, app).None?
    ensures Sock(t.Open(app, tick).table, app)
         == if RingIsOver(t, app) && HasRoom(t)
            then Some(State(app, None, Unknown, false, false, Queue([], 0), Queue([], 0), 0, tick)) else None
    ensures !(RingIsOver(t, app) && HasRoom(t)) ==> t.Open(app, tick).table.rows == t.rows
  {
    NoRowIsRowless(t, app);
    AdmittedExactlyWhen(t, app, tick);
    OpenSock(t, app, tick, app);
  }

  /** Pushes and notes find a row in exactly the same case as open does. */
  lemma RowAfterExactlyWhen(t: Table, call: Call)
    requires t.RowsOk() && Opens(call)
    ensures Sock(Perform(t, call).table, call.app).Some?
       <==> Sock(t, call.app).Some? || (RingIsOver(t, call.app) && HasRoom(t))
  {
    hide Table.RowsOk;
    var a := t.Open(call.app, call.tick);
    OpenSock(t, call.app, call.tick, call.app);
    CallIsExplained(t, call, call.app);
    if Sock(t, call.app).None? {
      OpenGrantsExactlyWhen(t, call.app, call.tick);
      if a.row.None? {
        RowIgnoresRing(a.table, Perform(t, call).table, call.app, 0);
      } else {
        OpenedRowStays(t, call);
      }
    }
  }

  lemma OpenedRowStays(t: Table, call: Call)
    requires t.RowsOk() && Opens(call) && t.Open(call.app, call.tick).row.Some?
    ensures Sock(Perform(t, call).table, call.app).Some?
  {
    var a := t.Open(call.app, call.tick);
    OpenSock(t, call.app, call.tick, call.app);
    hide Table.RowsOk, Table.Open, Table.Enqueue, Table.WithState, Noted, Sock;
    if call.PushCall? {
      EnqueueKeepsHolder(a.table, a.row.value, call.dgram, call.rxSide, call.app);
    } else if call.AnnotateCall? {
      NotedKeepsHolder(a.table, a.row.value, call.note, call.app);
    }
  }

  lemma NotedKeepsHolder(t: Table, i: nat, note: Note, app: Handle)
    requires i < MAX_ROWS && t.Holds(i, app)
    ensures Sock(t.WithState(i, Noted(t.rows[i].state, note)), app).Some?
  {
    HolderHasARow(t.WithState(i, Noted(t.rows[i].state, note)), i, app);
  }

  lemma HolderHasARow(t: Table, i: nat, app: Handle)
    requires i < MAX_ROWS && t.Holds(i, app)
    ensures Sock(t, app).Some?
  {
  }

  lemma EnqueueKeepsHolder(t: Table, i: nat, d: Datagram, rxSide: bool, app: Handle)
    requires i < MAX_ROWS && t.Holds(i, app)
    ensures Sock(t.Enqueue(i, d, rxSide).table, app).Some?
  {
    hide Trimmed;
    HolderHasARow(t.Enqueue(i, d, rxSide).table, i, app);
  }

  /** Every ring that runs for this value ends by the time the clock reads `until`. */
  ghost predicate RingEndsBy(t: Table, app: Handle, until: nat) {
    forall key: RetiredKey :: key in t.retired && key.app == app ==> key.reusableAt <= until
  }

  lemma RingIsNotRenewed(t: Table, call: Call, app: Handle, until: nat)
    requires RingEndsBy(t, app, until) && call != RetireCall(app)
    ensures RingEndsBy(Perform(t, call).table, app, until)
  {
    if Opens(call) {
      OpeningOnlyPrunes(t, call);
      forall key: RetiredKey | key in Perform(t, call).table.retired ensures key in t.retired {
        PrunedIsFilter(t.retired, t.insertions + 1, key);
      }
    }
  }

  lemma OpeningOnlyPrunes(t: Table, call: Call)
    requires Opens(call)
    ensures Perform(t, call).table.retired in [t.retired, Pruned(t.retired, t.insertions + 1)]
  {
    var a := t.Open(call.app, call.tick);
    assert a.table.retired in [t.retired, Pruned(t.retired, t.insertions + 1)];
    hide Table.Open, Trimmed;
    assert Perform(t, call).table.retired == a.table.retired;
  }

  /**
   * The other half of the ring's promise: a retired value that is not retired again is out
   * of its ring after 255 insertion attempts, so the 256th finds it admissible.
   */
  lemma {:induction false} RetiredValueReturns(states: seq<Table>, calls: seq<Call>, app: Handle, i: nat, k: nat)
    requires IsRun(states, calls) && i < k < |states|
    requires calls[i] == RetireCall(app) && Sock(states[i], app).Some?
    requires forall j {:trigger calls[j]} :: i < j < k ==> calls[j] != RetireCall(app)
    ensures RingEndsBy(states[k], app, states[i].insertions + 256)
    ensures states[k].insertions + 1 >= states[i].insertions + 256 ==> RingIsOver(states[k], app)
    decreases k
  {
    hide Perform, Table.RowsOk, Table.Amortised, Sock, RingEndsBy;
    if k == i + 1 {
      RunIsValid(states, calls, i);
      RetirementEndsBy(states[i], app);
    } else {
      RetiredValueReturns(states, calls, app, i, k - 1);
      assert calls[k - 1] != RetireCall(app);
      RingIsNotRenewed(states[k - 1], calls[k - 1], app, states[i].insertions + 256);
    }
    OverWhenEnded(states[k], app, states[i].insertions + 256);
  }

  lemma RetirementEndsBy(t: Table, app: Handle)
    requires t.Valid() && Sock(t, app).Some?
    ensures RingEndsBy(Perform(t, RetireCall(app)).table, app, t.insertions + 256)
  {
  }

  lemma OverWhenEnded(t: Table, app: Handle, until: nat)
    requires RingEndsBy(t, app, until)
    ensures t.insertions + 1 >= until ==> RingIsOver(t, app)
  {
  }

  // ------------------------------------------------------------ what a call writes to its own socket

  /** The state a call finds or makes for its own socket. */
  function Found(t: Table, call: Call): State {
    match Sock(t, call.app)
    case Some(s) => s
    case None => Blank(call.app, if Opens(call) then call.tick else 0)
  }

  /** Its own socket after the call, when it has a row then. */
  lemma OwnSock(t: Table, call: Call)
    requires t.RowsOk() && Sock(Perform(t, call).table, call.app).Some?
    ensures Sock(Perform(t, call).table, call.app) == Some(Effect(call, Found(t, call))) && !call.RetireCall?
  {
    hide Perform, Table.RowsOk, Effect;
    CallIsExplained(t, call, call.app);
  }

  /** Two states agree on everything but the age, the pins and the queues. */
  predicate SameFacts(a: State, b: State) {
    a.app == b.app && a.peer == b.peer && a.kind == b.kind && a.takeover == b.takeover && a.unmanaged == b.unmanaged
  }

  /** Every call but pin and unpin stamps its own row with its tick; those two leave the age alone. */
  lemma AgeIsTheLastCall(t: Table, call: Call)
    requires t.RowsOk() && Sock(Perform(t, call).table, call.app).Some?
    ensures Sock(Perform(t, call).table, call.app).value.lastUse
         == if call.PinCall? || call.UnpinCall? then Found(t, call).lastUse else call.tick
  {
    hide Perform, Table.RowsOk;
    OwnSock(t, call);
  }

  /** A note writes its own fact and no other, and costs no datagram and no pin; no other call writes a fact. */
  lemma NotesWriteTheirFact(t: Table, call: Call)
    requires t.RowsOk() && Sock(Perform(t, call).table, call.app).Some?
    ensures var before, after := Found(t, call), Sock(Perform(t, call).table, call.app).value;
            && (!call.AnnotateCall? ==> SameFacts(before, after))
            && (call.AnnotateCall? ==> after.tx == before.tx && after.rx == before.rx && after.pinned == before.pinned)
            && (call.AnnotateCall? ==>
                  && after.peer == (if call.note.PeerIs? then Some(call.note.peer) else before.peer)
                  && after.kind == (if call.note.TypeIs? then call.note.kind else before.kind)
                  && after.takeover == (before.takeover || call.note.TakenOver?)
                  && after.unmanaged == (before.unmanaged || call.note.PermanentlyUnmanaged?))
  {
    hide Perform, Table.RowsOk, Trimmed;
    OwnSock(t, call);
  }

  /**
   * A push that is not oversized leaves its queue as the longest newest stretch of what was
   * queued that the newcomer fits behind, and the newcomer; an oversized one, a push to the
   * other direction and every call that is neither push nor pop leave a queue as it was.
   */
  lemma QueueAfter(t: Table, call: Call, rxSide: bool) returns (lost: nat)
    requires t.RowsOk() && Sock(Perform(t, call).table, call.app).Some?
    ensures var before, after := Found(t, call).Of(rxSide).items,
                                 Sock(Perform(t, call).table, call.app).value.Of(rxSide).items;
            && lost <= |before|
            && (if call.PushCall? && call.rxSide == rxSide && |call.dgram.payload| <= QUEUE_MAX_BYTES then
                  && after == before[lost..] + [call.dgram]
                  && Fits(before[lost..], |call.dgram.payload|)
                  && forall j :: 0 <= j < lost ==> !Fits(before[j..], |call.dgram.payload|)
                else if call.PopCall? && call.rxSide == rxSide && before != [] then after == before[1..]
                else after == before)
  {
    hide Perform, Sock;
    OwnSock(t, call);
    FoundIsWithinBudget(t, call);
    hide Table.RowsOk;
    lost := 0;
    if call.PushCall? && call.rxSide == rxSide && |call.dgram.payload| <= QUEUE_MAX_BYTES {
      lost := TrimIsShortest(Found(t, call).Of(rxSide), |call.dgram.payload|);
    }
  }

  lemma FoundIsWithinBudget(t: Table, call: Call)
    requires t.RowsOk()
    ensures WithinBudget(Found(t, call).tx) && WithinBudget(Found(t, call).rx)
  {
  }

  // ------------------------------------------------------------ pins

  /** A pin count n after a call. */
  function PinsAfter(n: nat, call: Call, app: Handle): nat {
    if call == PinCall(app) then n + 1
    else if call == UnpinCall(app) && n > 0 then n - 1
    else n
  }

  /** A pin count n after calls [lo, hi). */
  function PinBalance(n: nat, calls: seq<Call>, app: Handle, lo: nat, hi: nat): nat
    requires lo <= hi <= |calls|
    decreases hi
  {
    if lo == hi then n else PinsAfter(PinBalance(n, calls, app, lo, hi - 1), calls[hi - 1], app)
  }

  /** Call j leaves the socket its row, or could not have taken it: it is pinned then, and not retired. */
  ghost predicate Sustained(states: seq<Table>, calls: seq<Call>, app: Handle, i: nat, j: nat)
    requires i <= j < |calls| && |states| == |calls| + 1 && Sock(states[i], app).Some?
  {
    || Sock(states[j + 1], app).Some?
    || (calls[j] != RetireCall(app) && PinBalance(Sock(states[i], app).value.pinned, calls, app, i, j) > 0)
  }

  lemma PinsMove(t: Table, call: Call, app: Handle)
    requires t.RowsOk() && Sock(t, app).Some? && Sock(Perform(t, call).table, app).Some?
    ensures Sock(Perform(t, call).table, app).value.pinned == PinsAfter(Sock(t, app).value.pinned, call, app)
  {
    hide Perform, Table.RowsOk, Sock, Trimmed;
    CallIsExplained(t, call, app);
  }

  /**
   * Over any run, as long as its row lives a socket is pinned exactly as often as pin was
   * called for it less unpin; and while that stays above none only its own retirement can
   * take the row: nobody else's traffic evicts a pinned socket.
   */
  lemma {:induction false} PinnedKeepsItsRow(states: seq<Table>, calls: seq<Call>, app: Handle, i: nat, k: nat)
    requires IsRun(states, calls) && i <= k < |states| && Sock(states[i], app).Some?
    requires forall j :: i <= j < k ==> Sustained(states, calls, app, i, j)
    ensures Sock(states[k], app).Some?
    ensures Sock(states[k], app).value.pinned
         == PinBalance(Sock(states[i], app).value.pinned, calls, app, i, k)
    decreases k
  {
    hide Perform, Table.RowsOk, Table.RingOk, Table.Amortised, Sock, Effect, PinsAfter;
    if i < k {
      var p := k - 1;
      PinnedKeepsItsRow(states, calls, app, i, p);
      RunIsValid(states, calls, p);
      CallIsExplained(states[p], calls[p], app);
      assert Sustained(states, calls, app, i, p);
      PinsMove(states[p], calls[p], app);
    }
  }

  // ------------------------------------------------------------ what a call costs others

  /** A call that takes the row of a socket. */
  ghost predicate TakesRow(t: Table, call: Call, gone: Handle) {
    Sock(t, gone).Some? && Sock(Perform(t, call).table, gone).None?
  }

  /** An admission costs at most one other socket its row, and then the newcomer has it. */
  lemma AdmissionTakesOne(t: Table, app: Handle, tick: nat, gone: Handle)
    requires t.RowsOk() && t.Rowless(app) && gone != app
    requires Sock(t, gone).Some? && Sock(t.Admit(app, tick).table, gone).None?
    ensures t.Admit(app, tick).row == t.RowOf(gone)
    ensures t.Admit(app, tick).table.discarded == t.discarded + Sock(t, gone).value.Load()
  {
    var i := t.SlotFor(app).value;
    InstallSock(t, i, app, tick, gone);
    assert t.Holds(i, gone);
    HolderIsTheRow(t, i, gone);
  }

  lemma OpeningTakesOne(t: Table, app: Handle, tick: nat, gone: Handle)
    requires t.RowsOk() && gone != app
    requires Sock(t, gone).Some? && Sock(t.Open(app, tick).table, gone).None?
    ensures t.Open(app, tick).row == t.RowOf(gone) && Sock(t.Open(app, tick).table, app).Some?
    ensures t.Open(app, tick).table.discarded == t.discarded + Sock(t, gone).value.Load()
  {
    var inserting := t.Inserting();
    OpenSock(t, app, tick, gone);
    NoRowIsRowless(t, app);
    assert t.Rowless(app) ==> inserting.Rowless(app);
    RowIgnoresRing(t, inserting, gone, 0);
    AdmissionTakesOne(inserting, app, tick, gone);
  }

  /**
   * A call takes at most one row, the loss is counted as discarded to the datagram, and an
   * eviction always buys the caller's socket a row.
   */
  lemma OneRowIsTaken(t: Table, call: Call, gone: Handle, other: Handle)
    requires t.RowsOk() && TakesRow(t, call, gone)
    ensures TakesRow(t, call, other) ==> other == gone
    ensures Perform(t, call).table.discarded == t.discarded + Sock(t, gone).value.Load()
    ensures call != RetireCall(gone) ==> Opens(call) && Sock(Perform(t, call).table, call.app).Some?
  {
    CallIsExplained(t, call, gone);
    CallIsExplained(t, call, other);
    if gone == call.app {
      RetireTakesItsOwn(t, gone);
    } else {
      OpeningHalfDecides(t, call, gone);
      OpeningTakesOne(t, call.app, call.tick, gone);
      OpenedRowStays(t, call);
      hide Table.RowsOk;
      DiscardedByOpening(t, call);
      if TakesRow(t, call, other) {
        OpeningHalfDecides(t, call, other);
        OpeningTakesOne(t, call.app, call.tick, other);
        SameRowSameSocket(t, gone, other);
      }
    }
  }

  lemma SameRowSameSocket(t: Table, a: Handle, b: Handle)
    requires t.RowOf(a).Some? && t.RowOf(a) == t.RowOf(b)
    ensures a == b
  {
  }

  lemma RetireTakesItsOwn(t: Table, app: Handle)
    requires Sock(t, app).Some?
    ensures t.Retire(app).table.discarded == t.discarded + Sock(t, app).value.Load()
  {
  }

  lemma DiscardedByOpening(t: Table, call: Call)
    requires Opens(call)
    ensures Perform(t, call).table.discarded == t.Open(call.app, call.tick).table.discarded
  {
  }

  lemma AdmissionDiscards(t: Table, app: Handle, tick: nat) returns (gone: Handle)
    requires t.RowsOk() && t.Rowless(app) && t.Admit(app, tick).table.discarded != t.discarded
    ensures gone != app && Sock(t, gone).Some? && Sock(t.Admit(app, tick).table, gone).None?
  {
    var i := t.SlotFor(app).value;
    gone := t.rows[i].state.app;
    HolderIsTheRow(t, i, gone);
    InstallSock(t, i, app, tick, gone);
  }

  lemma OpeningDiscards(t: Table, app: Handle, tick: nat) returns (gone: Handle)
    requires t.RowsOk() && t.Open(app, tick).table.discarded != t.discarded
    ensures gone != app && Sock(t, gone).Some? && Sock(t.Open(app, tick).table, gone).None?
  {
    NoRowIsRowless(t, app);
    assert t.Rowless(app) && t.Inserting().RowsOk() && t.Inserting().Rowless(app);
    gone := AdmissionDiscards(t.Inserting(), app, tick);
    RowIgnoresRing(t, t.Inserting(), gone, 0);
  }

  /** The discard counter moves by nothing but a row lost with datagrams in it. */
  lemma DiscardsAreLostRows(t: Table, call: Call)
    requires t.RowsOk() && Perform(t, call).table.discarded != t.discarded
    ensures exists gone :: TakesRow(t, call, gone)
  {
    if call.RetireCall? {
      RetireSock(t, call.app, call.app);
      assert TakesRow(t, call, call.app);
    } else {
      hide Table.RowsOk;
      OnlyOpeningDiscards(t, call);
      DiscardedByOpening(t, call);
      hide Perform;
      var gone := OpeningDiscards(t, call.app, call.tick);
      OpeningHalfDecides(t, call, gone);
      assert TakesRow(t, call, gone);
    }
  }

  lemma OnlyOpeningDiscards(t: Table, call: Call)
    requires Perform(t, call).table.discarded != t.discarded && !call.RetireCall?
    ensures Opens(call)
  {
  }

  // ------------------------------------------------------------ answers, counters and the clock

  /** Each answer says what happened, and a call that did nothing changes nothing. */
  lemma AnswersAreTrue(t: Table, call: Call)
    ensures var a, had := Perform(t, call), Sock(t, call.app).Some?;
            && (call.RetireCall? || call.PinCall? ==> (a.ok <==> had))
            && (call.UnpinCall? ==> (a.ok <==> had && Sock(t, call.app).value.pinned > 0))
            && (call.RetireCall? || call.PinCall? || call.UnpinCall? ==> (!a.ok ==> a.table == t))
            && (call.PushCall? ==> a.pushed.Some? && (a.ok <==> a.pushed != Some(Refused)))
            && (call.PopCall? ==> (a.ok <==> a.popped.Some?)) && (a.popped.Some? ==> call.PopCall?)
  {
    OpeningCounts(t, call);
    hide Table.Open, Trimmed;
  }

  /** The insertion clock counts the opening calls that found no row, the refusal counter the pushes refused. */
  lemma CountersMoveExactly(t: Table, call: Call)
    ensures var a := Perform(t, call);
            && a.table.insertions == t.insertions + (if Opens(call) && Sock(t, call.app).None? then 1 else 0)
            && a.table.refused == t.refused + (if a.pushed == Some(Refused) then 1 else 0)
            && (!call.PushCall? ==> a.pushed == None && a.table.dropped == t.dropped)
  {
    OpeningCounts(t, call);
    hide Table.Open, Trimmed;
  }

  lemma OpeningCounts(t: Table, call: Call)
    ensures Opens(call) ==>
              var a := t.Open(call.app, call.tick);
              && a.table.insertions == t.insertions + (if Sock(t, call.app).None? then 1 else 0)
              && a.table.refused == t.refused && a.table.dropped == t.dropped && a.pushed == None && a.popped == None
  {
  }

  /** What a push answers, told from its queue: refused without a row or when oversized, else by what had to go. */
  lemma PushAnswersExactly(t: Table, call: Call)
    requires t.RowsOk() && call.PushCall?
    ensures var a := Perform(t, call);
            var before := |Found(t, call).Of(call.rxSide).items|;
            match Sock(a.table, call.app)
            case None => a.pushed == Some(Refused) && a.table.dropped == t.dropped
            case Some(s) =>
              if |call.dgram.payload| > QUEUE_MAX_BYTES then
                a.pushed == Some(Refused) && a.table.dropped == t.dropped
              else
                var lost := before + 1 - |s.Of(call.rxSide).items|;
                a.table.dropped == t.dropped + lost && a.pushed == Some(if lost == 0 then Accepted else DroppedOldest)
  {
    var a := t.Open(call.app, call.tick);
    OpenSock(t, call.app, call.tick, call.app);
    if a.row.Some? {
      OpenedRowStays(t, call);
      HolderIsTheRow(a.table, a.row.value, call.app);
      OwnSock(t, call);
    } else {
      RowIgnoresRing(a.table, Perform(t, call).table, call.app, 0);
    }
  }
}
