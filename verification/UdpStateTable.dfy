/** The UDP state table as the object it is: an array of rows, a list of retired keys and counters, changed in place. */
module UdpStateTables {
  import opened Basics
  import opened UdpState

  class UdpStateTable {
    const rows: array<Row>
    var retired: seq<RetiredKey>
    var insertions: nat
    var rowsUsed: int
    var dropped: nat
    var discarded: nat
    var refused: nat

    ghost predicate Shaped()
      reads this
    {
      rows.Length == MAX_ROWS
    }

    /** The table these fields spell. */
    ghost function View(): Table
      requires Shaped()
      reads this, rows
    {
      Table(rows[..], retired, insertions, rowsUsed, dropped, discarded, refused)
    }

    constructor ()
      ensures Shaped() && fresh(rows) && View() == EMPTY_TABLE
    {
      rows := new Row[MAX_ROWS](_ => UNUSED_ROW);
      retired, insertions, rowsUsed, dropped, discarded, refused := [], 0, 0, 0, 0, 0;
    }

    /** find() and mutable_row(): the row a socket already has. */
    method Find(app: Handle) returns (r: Option<nat>)
      requires Shaped()
      ensures r == View().RowOf(app)
    {
      var i := 0;
      ghost var t := View();
      while i < rows.Length
        invariant 0 <= i <= MAX_ROWS
        invariant t.RowFrom(app, 0) == t.RowFrom(app, i)
      {
        if rows[i].used && rows[i].state.app == app {
          assert t.Holds(i, app);
          return Some(i);
        }
        i := i + 1;
      }
      return None;
    }

    method PruneQuarantine()
      requires Shaped()
      modifies this`retired
      ensures Shaped() && retired == Pruned(old(retired), insertions)
    {
      var still := [];
      var i := 0;
      while i < |retired|
        invariant 0 <= i <= |retired|
        invariant still == Pruned(retired[..i], insertions)
      {
        var key := retired[i];
        if insertions < key.reusableAt {
          still := still + [key];
        }
        assert retired[..i + 1][..i] == retired[..i];
        i := i + 1;
      }
      assert retired[..|retired|] == retired;
      retired := still;
    }

    method IsQuarantined(app: Handle) returns (yes: bool)
      requires Shaped()
      ensures yes == Quarantined(retired, insertions, app)
    {
      var i := 0;
      while i < |retired|
        invariant 0 <= i <= |retired|
        invariant forall k :: 0 <= k < i ==> retired[k].app != app || insertions >= retired[k].reusableAt
      {
        if retired[i].app == app && insertions < retired[i].reusableAt {
          return true;
        }
        i := i + 1;
      }
      return false;
    }

    method FindSlotFor(app: Handle) returns (r: Option<nat>)
      requires Shaped()
      ensures r == View().SlotFor(app)
    {
      var i := 0;
      ghost var t := View();
      while i < rows.Length
        invariant 0 <= i <= MAX_ROWS
        invariant t.FreeFrom(0) == t.FreeFrom(i)
      {
        if !rows[i].used {
          return Some(i);
        }
        i := i + 1;
      }
      r := None;
      i := 0;
      while i < rows.Length
        invariant 0 <= i <= MAX_ROWS
        invariant r == t.LruBelow(app, i)
      {
        var state := rows[i].state;
        if state.pinned == 0 && state.app != app {
          assert t.Evictable(i, app);
          if r.None? || state.lastUse < rows[r.value].state.lastUse {
            r := Some(i);
          }
        }
        i := i + 1;
      }
    }

    /** The row of a socket, created on first sight; None when the table will not track it. */
    method Open(app: Handle, tick: nat) returns (row: Option<nat>)
      requires Shaped()
      modifies this, rows
      ensures Shaped() && View() == old(View()).Open(app, tick).table
      ensures row == old(View()).Open(app, tick).row
    {
      var seen := Find(app);
      if seen.Some? {
        rows[seen.value] := rows[seen.value].(state := rows[seen.value].state.(lastUse := tick));
        return seen;
      }
      ghost var before := View();
      insertions := insertions + 1;
      PruneQuarantine();
      assert View() == before.Inserting();
      row := Admit(app, tick);
    }

    /** The rest of open(), the insertion clock advanced and the ring pruned. */
    method Admit(app: Handle, tick: nat) returns (row: Option<nat>)
      requires Shaped()
      modifies this, rows
      ensures Shaped() && View() == old(View()).Admit(app, tick).table
      ensures row == old(View()).Admit(app, tick).row
    {
      var quarantined := IsQuarantined(app);
      if quarantined {
        return None;
      }
      row := FindSlotFor(app);
      if row.None? {
        return;
      }
      if rows[row.value].used {
        discarded := discarded + |rows[row.value].state.tx.items| + |rows[row.value].state.rx.items|;
      } else {
        rowsUsed := rowsUsed + 1;
      }
      rows[row.value] := Row(Blank(app, tick), true);
    }

    method Retire(app: Handle) returns (gone: bool)
      requires Shaped()
      modifies this, rows
      ensures Shaped() && View() == old(View()).Retire(app).table && gone == old(View()).Retire(app).ok
    {
      var i := Find(app);
      if i.None? {
        return false;
      }
      discarded := discarded + |rows[i.value].state.tx.items| + |rows[i.value].state.rx.items|;
      rows[i.value] := UNUSED_ROW;
      rowsUsed := rowsUsed - 1;
      retired := retired + [RetiredKey(app, insertions + KEY_QUARANTINE)];
      return true;
    }

    method Push(app: Handle, tick: nat, d: Datagram, rxSide: bool) returns (outcome: Pushed)
      requires Shaped()
      modifies this, rows
      ensures Shaped() && View() == old(View()).Push(app, tick, d, rxSide).table
      ensures old(View()).Push(app, tick, d, rxSide).pushed == Some(outcome)
    {
      var row := Open(app, tick);
      if row.None? {
        refused := refused + 1;
        return Refused;
      }
      outcome := Enqueue(row.value, d, rxSide);
    }

    /** The rest of push(): the loop erases from the front until the newcomer fits. */
    method Enqueue(i: nat, d: Datagram, rxSide: bool) returns (outcome: Pushed)
      requires Shaped() && i < MAX_ROWS
      modifies this`refused, this`dropped, rows
      ensures Shaped() && View() == old(View()).Enqueue(i, d, rxSide).table
      ensures old(View()).Enqueue(i, d, rxSide).pushed == Some(outcome)
    {
      var size := |d.payload|;
      if size > QUEUE_MAX_BYTES {
        refused := refused + 1;
        return Refused;
      }
      var state := rows[i].state;
      var items, bytes := state.Of(rxSide).items, state.Of(rxSide).bytes;
      var lost := 0;
      while items != [] && (|items| + 1 > QUEUE_MAX_DATAGRAMS || bytes + size > QUEUE_MAX_BYTES)
        invariant Trimmed(Queue(items, bytes), size) == Trimmed(state.Of(rxSide), size)
        invariant lost == |state.Of(rxSide).items| - |items|
        decreases |items|
      {
        bytes := bytes - |items[0].payload|;
        items := items[1..];
        lost := lost + 1;
      }
      assert Trimmed(state.Of(rxSide), size) == Queue(items, bytes);
      dropped := dropped + lost;
      rows[i] := rows[i].(state := state.With(rxSide, Queue(items + [d], bytes + size)));
      return if lost == 0 then Accepted else DroppedOldest;
    }

    method Pop(app: Handle, tick: nat, rxSide: bool) returns (next: Option<Datagram>)
      requires Shaped()
      modifies rows
      ensures Shaped() && View() == old(View()).Pop(app, tick, rxSide).table
      ensures next == old(View()).Pop(app, tick, rxSide).popped
    {
      var i := Find(app);
      if i.None? {
        return None;
      }
      var state := rows[i.value].state.(lastUse := tick);
      var q := state.Of(rxSide);
      if q.items == [] {
        rows[i.value] := rows[i.value].(state := state);
        return None;
      }
      var rest := Queue(q.items[1..], q.bytes - |q.items[0].payload|);
      rows[i.value] := rows[i.value].(state := state.With(rxSide, rest));
      return Some(q.items[0]);
    }

    /** set_peer, set_type, mark_takeover and mark_permanently_unmanaged: open, then write one fact down. */
    method Annotate(app: Handle, tick: nat, note: Note)
      requires Shaped()
      modifies this, rows
      ensures Shaped() && View() == old(View()).Annotate(app, tick, note).table
    {
      var row := Open(app, tick);
      if row.Some? {
        rows[row.value] := rows[row.value].(state := Noted(rows[row.value].state, note));
      }
    }

    method Pin(app: Handle) returns (held: bool)
      requires Shaped()
      modifies rows
      ensures Shaped() && View() == old(View()).Pin(app).table && held == old(View()).Pin(app).ok
    {
      var i := Find(app);
      if i.None? {
        return false;
      }
      var state := rows[i.value].state;
      rows[i.value] := rows[i.value].(state := state.(pinned := state.pinned + 1));
      return true;
    }

    method Unpin(app: Handle) returns (released: bool)
      requires Shaped()
      modifies rows
      ensures Shaped() && View() == old(View()).Unpin(app).table && released == old(View()).Unpin(app).ok
    {
      var i := Find(app);
      if i.None? || rows[i.value].state.pinned == 0 {
        return false;
      }
      var state := rows[i.value].state;
      rows[i.value] := rows[i.value].(state := state.(pinned := state.pinned - 1));
      return true;
    }
  }
}
