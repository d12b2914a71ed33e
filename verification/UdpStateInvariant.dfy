/** Every call of the UDP state table keeps its invariant: budgets, the retired-key ring and its amortised bound. */
module UdpStateInvariant {
  import opened Basics
  import opened UdpState

  lemma EmptyIsValid()
    ensures EMPTY_TABLE.Valid()
  {
    assert EMPTY_TABLE.UsedRows() == {};
  }

  // ------------------------------------------------------------ rewriting one row

  /** A row rewritten in place for the same socket, its queues within budget. */
  ghost predicate SameSocket(t: Table, i: nat, s: State) {
    && i < MAX_ROWS && t.rows[i].used && s.app == t.rows[i].state.app
    && WithinBudget(s.tx) && WithinBudget(s.rx)
  }

  lemma WithStateKeepsValid(t: Table, i: nat, s: State)
    requires t.Valid() && SameSocket(t, i, s)
    ensures t.WithState(i, s).Valid()
  {
    var later := t.WithState(i, s);
    assert later.UsedRows() == t.UsedRows();
  }

  /** The counters of lost datagrams are not part of the invariant. */
  lemma CountersKeepValid(t: Table, dropped: nat, discarded: nat, refused: nat)
    requires t.Valid()
    ensures t.(dropped := dropped, discarded := discarded, refused := refused).Valid()
  {
    var later := t.(dropped := dropped, discarded := discarded, refused := refused);
    assert later.UsedRows() == t.UsedRows();
  }

  // ------------------------------------------------------------ the ring

  lemma {:induction false} PrunedIsFilter(keys: seq<RetiredKey>, insertions: nat, key: RetiredKey)
    ensures key in Pruned(keys, insertions) <==> key in keys && insertions < key.reusableAt
  {
    if keys != [] {
      PrunedIsFilter(keys[..|keys| - 1], insertions, key);
      assert keys == keys[..|keys| - 1] + [keys[|keys| - 1]];
    }
  }

  ghost predicate DistinctApps(keys: seq<RetiredKey>) {
    forall k, m :: 0 <= k < m < |keys| ==> keys[k].app != keys[m].app
  }

  lemma {:induction false} PrunedIsDistinct(keys: seq<RetiredKey>, insertions: nat)
    requires DistinctApps(keys)
    ensures DistinctApps(Pruned(keys, insertions))
  {
    if keys != [] {
      var front, last := keys[..|keys| - 1], keys[|keys| - 1];
      PrunedIsDistinct(front, insertions);
      forall k | 0 <= k < |Pruned(front, insertions)| ensures Pruned(front, insertions)[k].app != last.app {
        PrunedIsFilter(front, insertions, Pruned(front, insertions)[k]);
      }
    }
  }

  lemma {:induction false} PruningForgetsOnly(keys: seq<RetiredKey>, insertions: nat, j: nat)
    ensures RetiredSince(Pruned(keys, insertions), j) <= RetiredSince(keys, j)
  {
    if keys != [] {
      var front, last := keys[..|keys| - 1], keys[|keys| - 1];
      PruningForgetsOnly(front, insertions, j);
      if insertions < last.reusableAt {
        assert (Pruned(front, insertions) + [last])[..|Pruned(front, insertions)|] == Pruned(front, insertions);
      } else {
        assert Pruned(keys, insertions) == Pruned(front, insertions);
      }
    }
  }

  lemma {:induction false} NoneRetiredYet(keys: seq<RetiredKey>, j: nat)
    requires forall k :: 0 <= k < |keys| ==> keys[k].reusableAt < j + KEY_QUARANTINE
    ensures RetiredSince(keys, j) == 0
  {
    if keys != [] {
      NoneRetiredYet(keys[..|keys| - 1], j);
    }
  }

  lemma {:induction false} AllRetiredSince(keys: seq<RetiredKey>, j: nat)
    requires forall k :: 0 <= k < |keys| ==> keys[k].reusableAt >= j + KEY_QUARANTINE
    ensures RetiredSince(keys, j) == |keys|
  {
    if keys != [] {
      AllRetiredSince(keys[..|keys| - 1], j);
    }
  }

  /** An insertion attempt leaves room in the amortised bound for one more row. */
  ghost predicate RoomForOne(t: Table) {
    forall j: nat :: j <= t.insertions ==>
      RetiredSince(t.retired, j) + t.rowsUsed + (if t.FreeFrom(0).Some? then 1 else 0) <= MAX_ROWS + t.insertions - j
  }

  lemma UsedRowsFit(t: Table)
    ensures |t.UsedRows()| <= MAX_ROWS
  {
    SubsetSize(t.UsedRows(), Below(MAX_ROWS));
  }

  lemma OneMoreFits(s: set<nat>, i: nat, n: nat)
    requires i < n && i !in s && forall x :: x in s ==> x < n
    ensures |s| < n
  {
    assert |s + {i}| == |s| + 1;
    SubsetSize(s + {i}, Below(n));
  }

  lemma FreeRowLeavesRoom(t: Table, i: nat)
    requires i < MAX_ROWS && !t.rows[i].used
    ensures |t.UsedRows()| < MAX_ROWS
  {
    var used := t.UsedRows();
    assert i !in used;
    OneMoreFits(used, i, MAX_ROWS);
  }

  lemma InsertingKeepsRing(t: Table)
    requires t.RingOk()
    ensures t.Inserting().RingOk()
  {
    var later := t.Inserting();
    PrunedIsDistinct(t.retired, later.insertions);
    forall k | 0 <= k < |later.retired|
      ensures later.retired[k] in t.retired && later.insertions < later.retired[k].reusableAt
    {
      PrunedIsFilter(t.retired, later.insertions, later.retired[k]);
    }
  }

  lemma {:induction false} FreeRowIgnoresRing(t: Table, later: Table, i: nat)
    requires i <= MAX_ROWS && t.rows == later.rows
    ensures t.FreeFrom(i) == later.FreeFrom(i)
    decreases MAX_ROWS - i
  {
    if i < MAX_ROWS {
      FreeRowIgnoresRing(t, later, i + 1);
    }
  }

  lemma InsertingLeavesRoom(t: Table)
    requires t.rowsUsed == |t.UsedRows()| && t.RingOk() && t.Amortised()
    ensures RoomForOne(t.Inserting())
  {
    var later := t.Inserting();
    UsedRowsFit(t);
    if t.FreeFrom(0).Some? {
      FreeRowLeavesRoom(t, t.FreeFrom(0).value);
    }
    FreeRowIgnoresRing(t, later, 0);
    forall j: nat | j <= later.insertions
      ensures RetiredSince(later.retired, j) + t.rowsUsed + (if t.FreeFrom(0).Some? then 1 else 0)
           <= MAX_ROWS + later.insertions - j
    {
      PruningForgetsOnly(t.retired, later.insertions, j);
      if j == later.insertions {
        NoneRetiredYet(t.retired, j);
      }
    }
  }

  lemma InsertingKeepsValid(t: Table)
    requires t.Valid()
    ensures t.Inserting().Valid() && RoomForOne(t.Inserting())
  {
    InsertingKeepsRing(t);
    InsertingLeavesRoom(t);
    assert t.Inserting().UsedRows() == t.UsedRows();
  }

  // ------------------------------------------------------------ admitting and retiring a socket

  lemma InstallKeepsRows(t: Table, i: nat, app: Handle, tick: nat)
    requires t.RowsOk() && i < MAX_ROWS && t.Rowless(app)
    ensures t.Install(i, app, tick).RowsOk()
    ensures t.Install(i, app, tick).UsedRows() == t.UsedRows() + {i}
  {
  }

  lemma InstallKeepsRing(t: Table, i: nat, app: Handle, tick: nat)
    requires t.RingOk() && i < MAX_ROWS && !Quarantined(t.retired, t.insertions, app)
    ensures t.Install(i, app, tick).RingOk()
  {
    var later := t.Install(i, app, tick);
  }

  lemma InstallKeepsValid(t: Table, i: nat, app: Handle, tick: nat)
    requires t.Valid() && RoomForOne(t) && t.SlotFor(app) == Some(i)
    requires t.Rowless(app)
    requires !Quarantined(t.retired, t.insertions, app)
    ensures t.Install(i, app, tick).Valid()
  {
    InstallKeepsRows(t, i, app, tick);
    InstallKeepsRing(t, i, app, tick);
  }

  lemma AdmitKeepsValid(t: Table, app: Handle, tick: nat)
    requires t.Valid() && RoomForOne(t) && t.Rowless(app)
    ensures t.Admit(app, tick).table.Valid()
    ensures t.Admit(app, tick).row.Some? ==>
              SameSocket(t.Admit(app, tick).table, t.Admit(app, tick).row.value, Blank(app, tick))
  {
    if !Quarantined(t.retired, t.insertions, app) && t.SlotFor(app).Some? {
      InstallKeepsValid(t, t.SlotFor(app).value, app, tick);
    }
  }

  lemma NoRowIsRowless(t: Table, app: Handle)
    ensures t.RowOf(app).None? <==> t.Rowless(app)
  {
    if t.RowOf(app).None? {
      forall i | 0 <= i < MAX_ROWS && t.rows[i].used ensures t.rows[i].state.app != app {
        assert !t.Holds(i, app);
      }
    }
  }

  /** The row open answers belongs to the socket, and the table is well formed. */
  lemma OpenKeepsValid(t: Table, app: Handle, tick: nat)
    requires t.Valid()
    ensures t.Open(app, tick).table.Valid()
    ensures t.Open(app, tick).row.Some? ==> t.Open(app, tick).table.Holds(t.Open(app, tick).row.value, app)
  {
    match t.RowOf(app)
    case Some(i) => WithStateKeepsValid(t, i, t.rows[i].state.(lastUse := tick));
    case None =>
      InsertingKeepsValid(t);
      NoRowIsRowless(t, app);
      assert t.Inserting().Rowless(app);
      AdmitKeepsValid(t.Inserting(), app, tick);
  }

  lemma RetireKeepsRing(t: Table, app: Handle)
    requires t.RowsOk() && t.RingOk()
    ensures t.Retire(app).table.RingOk()
  {
    if t.RowOf(app).Some? {
      NoRowIsRowless(t, app);
      var later := t.Retire(app).table;
      assert later.Rowless(app);
      assert forall k :: 0 <= k < |t.retired| ==> t.Rowless(t.retired[k].app);
      assert forall k :: 0 <= k < |t.retired| ==> later.retired[k] == t.retired[k] && later.retired[k].app != app;
    }
  }

  lemma RetireKeepsRows(t: Table, app: Handle)
    requires t.RowsOk()
    ensures t.Retire(app).table.RowsOk()
  {
  }

  lemma RetireKeepsAmortised(t: Table, app: Handle)
    requires t.Amortised()
    ensures t.Retire(app).table.Amortised()
  {
    if t.RowOf(app).Some? {
      var later := t.Retire(app).table;
      assert later.retired[..|t.retired|] == t.retired;
    }
  }

  lemma RetireKeepsValid(t: Table, app: Handle)
    requires t.Valid()
    ensures t.Retire(app).table.Valid()
  {
    hide Table.RowsOk, Table.RingOk, Table.Amortised;
    RetireKeepsRows(t, app);
    RetireKeepsRing(t, app);
    RetireKeepsAmortised(t, app);
    if t.RowOf(app).Some? {
      assert t.Retire(app).table.UsedRows() == t.UsedRows() - {t.RowOf(app).value};
    }
  }

  // ------------------------------------------------------------ queue traffic

  lemma QueuesAreWithinBudget(t: Table, i: nat)
    requires t.RowsOk() && i < MAX_ROWS
    ensures WithinBudget(t.rows[i].state.tx) && WithinBudget(t.rows[i].state.rx)
  {
  }

  /** What a push makes of one queue stays within budget. */
  lemma RoomIsMade(q: Queue, d: Datagram)
    requires WithinBudget(q) && |d.payload| <= QUEUE_MAX_BYTES
    ensures var trimmed := Trimmed(q, |d.payload|);
            WithinBudget(Queue(trimmed.items + [d], trimmed.bytes + |d.payload|))
  {
    var lost := TrimIsShortest(q, |d.payload|);
    TotalBytesAppend(Trimmed(q, |d.payload|).items, d);
  }

  lemma EnqueueKeepsValid(t: Table, i: nat, d: Datagram, rxSide: bool)
    requires t.Valid() && i < MAX_ROWS && t.rows[i].used
    ensures t.Enqueue(i, d, rxSide).table.Valid()
  {
    hide Table.RowsOk, Table.RingOk, Table.Amortised, WithinBudget;
    QueuesAreWithinBudget(t, i);
    var s := t.rows[i].state;
    if |d.payload| > QUEUE_MAX_BYTES {
      CountersKeepValid(t, t.dropped, t.discarded, t.refused + 1);
    } else {
      RoomIsMade(s.Of(rxSide), d);
      var later := t.Enqueue(i, d, rxSide).table;
      WithStateKeepsValid(t, i, later.rows[i].state);
      CountersKeepValid(t.WithState(i, later.rows[i].state), later.dropped, t.discarded, t.refused);
    }
  }

  lemma PushKeepsValid(t: Table, app: Handle, tick: nat, d: Datagram, rxSide: bool)
    requires t.Valid()
    ensures t.Push(app, tick, d, rxSide).table.Valid()
  {
    hide Table.Valid;
    OpenKeepsValid(t, app, tick);
    var admitted := t.Open(app, tick);
    match admitted.row
    case None =>
      CountersKeepValid(admitted.table, admitted.table.dropped, admitted.table.discarded, admitted.table.refused + 1);
    case Some(i) => EnqueueKeepsValid(admitted.table, i, d, rxSide);
  }

  lemma PopKeepsValid(t: Table, app: Handle, tick: nat, rxSide: bool)
    requires t.Valid()
    ensures t.Pop(app, tick, rxSide).table.Valid()
  {
    if t.RowOf(app).Some? {
      var i := t.RowOf(app).value;
      WithStateKeepsValid(t, i, t.Pop(app, tick, rxSide).table.rows[i].state);
    }
  }

  lemma AnnotateKeepsValid(t: Table, app: Handle, tick: nat, note: Note)
    requires t.Valid()
    ensures t.Annotate(app, tick, note).table.Valid()
  {
    OpenKeepsValid(t, app, tick);
    var admitted := t.Open(app, tick);
    if admitted.row.Some? {
      WithStateKeepsValid(admitted.table, admitted.row.value,
                          Noted(admitted.table.rows[admitted.row.value].state, note));
    }
  }

  lemma PinsKeepValid(t: Table, app: Handle)
    requires t.Valid()
    ensures t.Pin(app).table.Valid() && t.Unpin(app).table.Valid()
  {
    if t.RowOf(app).Some? {
      var i := t.RowOf(app).value;
      var s := t.rows[i].state;
      WithStateKeepsValid(t, i, s.(pinned := s.pinned + 1));
      if s.pinned > 0 {
        WithStateKeepsValid(t, i, s.(pinned := s.pinned - 1));
      }
    }
  }

  /** Every call keeps the budgets, the ring and the amortised bound. */
  lemma CallKeepsValid(t: Table, call: Call)
    requires t.Valid()
    ensures Perform(t, call).table.Valid()
  {
    match call
    case OpenCall(app, tick) => OpenKeepsValid(t, app, tick);
    case RetireCall(app) => RetireKeepsValid(t, app);
    case PushCall(app, tick, d, rxSide) => PushKeepsValid(t, app, tick, d, rxSide);
    case PopCall(app, tick, rxSide) => PopKeepsValid(t, app, tick, rxSide);
    case AnnotateCall(app, tick, note) => AnnotateKeepsValid(t, app, tick, note);
    case PinCall(app) => PinsKeepValid(t, app);
    case UnpinCall(app) => PinsKeepValid(t, app);
  }

  /** Retired keys and rows in use together never exceed 511, whatever was opened and retired before. */
  lemma RingIsBounded(t: Table)
    requires t.Valid()
    ensures |t.retired| + |t.UsedRows()| <= MAX_ROWS + KEY_QUARANTINE - 1
  {
    var j := if t.insertions >= KEY_QUARANTINE - 1 then t.insertions - (KEY_QUARANTINE - 1) else 0;
    AllRetiredSince(t.retired, j);
  }
}
