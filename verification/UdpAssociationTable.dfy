/** The association table as the object it is: an array of rows scanned and rewritten in place. */
module UdpAssociationTables {
  import opened Basics
  import opened UdpAssociations

  class UdpAssociationTable {
    const rows: array<Row>
    var live: int

    ghost predicate Shaped()
      reads this
    {
      rows.Length == ASSOCIATION_MAX
    }

    /** The table these fields spell. */
    ghost function View(): Table
      requires Shaped()
      reads this, rows
    {
      Table(rows[..], live)
    }

    constructor ()
      ensures Shaped() && fresh(rows) && View() == EMPTY
    {
      rows := new Row[ASSOCIATION_MAX](_ => BLANK_ROW);
      live := 0;
    }

    method Open(control: Handle, relay: Handle, bound: Endpoint, tick: nat) returns (ref: Ref)
      requires Shaped()
      modifies this`live, rows
      ensures Shaped() && View() == old(View()).Open(control, relay, bound, tick).table
      ensures ref == old(View()).Open(control, relay, bound, tick).ref
    {
      ghost var t := View();
      var i := 0;
      while i < rows.Length
        invariant 0 <= i <= ASSOCIATION_MAX && View() == t
        invariant t.RowOfControl(control, 0) == t.RowOfControl(control, i)
      {
        if rows[i].used && rows[i].state.control == control {
          assert t.RowOfControl(control, 0) == Some(i);
          rows[i] := rows[i].(state := rows[i].state.(lastUse := tick));
          return Ref(i, rows[i].generation);
        }
        i := i + 1;
      }
      assert t.RowOfControl(control, 0) == None;
      i := 0;
      while i < rows.Length
        invariant 0 <= i <= ASSOCIATION_MAX && View() == t
        invariant t.FreeRow(0) == t.FreeRow(i)
      {
        if !rows[i].used {
          assert t.RowOfControl(control, 0) == None && t.FreeRow(0) == Some(i);
          rows[i] := Row(Association(control, relay, bound, 0, tick), true, rows[i].generation + 1);
          live := live + 1;
          return Ref(i, rows[i].generation);
        }
        i := i + 1;
      }
      return NO_REF;
    }

    /** The row behind a reference, when it still resolves. */
    method RowOf(ref: Ref) returns (i: Option<nat>)
      requires Shaped()
      ensures i == if View().Resolves(ref) then Some(ref.slot) else None
    {
      if ref.slot == NO_ROW || ref.slot >= rows.Length {
        return None;
      }
      var row := rows[ref.slot];
      if !row.used || row.generation != ref.generation {
        return None;
      }
      return Some(ref.slot);
    }

    method Get(ref: Ref) returns (state: Option<Association>)
      requires Shaped()
      ensures state == View().Get(ref)
    {
      var i := RowOf(ref);
      if i.None? {
        return None;
      }
      return Some(rows[i.value].state);
    }

    method Touch(ref: Ref, tick: nat)
      requires Shaped()
      modifies rows
      ensures Shaped() && View() == old(View()).Touch(ref, tick).table
    {
      var i := RowOf(ref);
      if i.Some? {
        rows[i.value] := rows[i.value].(state := rows[i.value].state.(lastUse := tick));
      }
    }

    method Acquire(ref: Ref) returns (held: bool)
      requires Shaped()
      modifies rows
      ensures Shaped() && View() == old(View()).Acquire(ref).table && held == old(View()).Resolves(ref)
    {
      var i := RowOf(ref);
      if i.None? {
        return false;
      }
      var state := rows[i.value].state;
      rows[i.value] := rows[i.value].(state := state.(refcount := state.refcount + 1));
      return true;
    }

    method CloseRow(i: nat)
      requires Shaped() && i < ASSOCIATION_MAX
      modifies this`live, rows
      ensures Shaped() && live == old(live) - 1 && rows[..] == old(rows[..])[i := Closed(old(rows[i]))]
    {
      rows[i] := Row(NO_ASSOCIATION, false, rows[i].generation);
      live := live - 1;
    }

    method Release(ref: Ref, tick: nat) returns (died: Option<Association>)
      requires Shaped()
      modifies this`live, rows
      ensures Shaped() && View() == old(View()).Release(ref, tick).table
      ensures old(View()).Release(ref, tick).handedBack == if died.Some? then [died.value] else []
    {
      var i := RowOf(ref);
      if i.None? {
        return None;
      }
      var state := rows[i.value].state;
      if state.refcount > 0 {
        state := state.(refcount := state.refcount - 1);
      }
      if state.refcount > 0 {
        rows[i.value] := rows[i.value].(state := state.(lastUse := tick));
        return None;
      }
      CloseRow(i.value);
      return Some(state);
    }

    method ReapIdle(tick: nat) returns (died: seq<Association>)
      requires Shaped()
      modifies this`live, rows
      ensures Shaped() && View() == old(View()).ReapIdle(tick).table
      ensures died == old(View()).ReapIdle(tick).handedBack
    {
      died := [];
      var i := 0;
      ghost var before := rows[..];
      while i < rows.Length
        invariant 0 <= i <= ASSOCIATION_MAX
        invariant died == IdleRecords(before, tick, i) && live == old(live) - |died|
        invariant forall k :: 0 <= k < i ==> rows[k] == if Idle(before[k], tick) then Closed(before[k]) else before[k]
        invariant forall k :: i <= k < ASSOCIATION_MAX ==> rows[k] == before[k]
      {
        if !rows[i].used || rows[i].state.refcount > 0 {
        } else if tick < rows[i].state.lastUse {
        } else if tick - rows[i].state.lastUse < IDLE_LIMIT_TICKS {
        } else {
          died := died + [rows[i].state];
          CloseRow(i);
        }
        i := i + 1;
      }
      assert rows[..] == old(View()).ReapIdle(tick).table.rows;
    }
  }
}
