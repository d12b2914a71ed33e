/** The fake-IP table as the object it is: two fixed arrays and four counters, changed in place. */
module FakeIpTables {
  import opened Basics
  import opened FakeIp

  class FakeIpTable {
    const slots: array<Slot>
    const marks: array<bool>
    const quarantine: nat
    var exclusions: nat
    var touch: nat
    var allocations: nat

    ghost predicate Shaped()
      reads this
    {
      slots.Length == CAPACITY && marks.Length == CAPACITY
    }

    /** The table these fields spell. */
    ghost function View(): Table
      requires Shaped()
      reads this, slots, marks
    {
      Table(slots[..], marks[..], exclusions, quarantine, touch, allocations)
    }

    constructor (excluded: Octets, quarantine: nat)
      ensures Shaped() && fresh(slots) && fresh(marks)
      ensures View() == Fresh(quarantine).Exclude(excluded)
    {
      slots := new Slot[CAPACITY](_ => BLANK_SLOT);
      marks := new bool[CAPACITY](_ => false);
      this.quarantine := quarantine;
      exclusions, touch, allocations := 0, 0, 0;
      new;
      assert View() == Fresh(quarantine);
      Exclude(excluded);
    }

    method FindName(name: string) returns (r: Option<nat>)
      requires Shaped()
      ensures r == View().FindName(name)
    {
      var i := 0;
      while i < slots.Length
        invariant 0 <= i <= CAPACITY
        invariant View().FindName(name) == View().FindNameFrom(name, i)
      {
        if slots[i].name == name {
          return Some(i);
        }
        i := i + 1;
      }
      return None;
    }

    method Claimable(i: nat) returns (yes: bool)
      requires Shaped() && i < CAPACITY
      ensures yes == View().Claimable(i)
    {
      if marks[i] {
        return false;
      }
      var row := slots[i];
      if !row.usedOnce {
        return true;
      }
      return allocations >= row.reusableAt;
    }

    method FindFree() returns (r: Option<nat>)
      requires Shaped()
      ensures r == View().FindFree()
    {
      var i := 0;
      while i < slots.Length
        invariant 0 <= i <= CAPACITY
        invariant View().FindFree() == View().FindFreeFrom(i)
      {
        var claimable := Claimable(i);
        if slots[i].name == "" && claimable {
          return Some(i);
        }
        i := i + 1;
      }
      return None;
    }

    method FindLru() returns (victim: Option<nat>)
      requires Shaped()
      ensures victim == View().FindLru()
    {
      victim := None;
      var i := 0;
      while i < slots.Length
        invariant 0 <= i <= CAPACITY
        invariant victim == View().LruBelow(i)
      {
        var row := slots[i];
        if row.name != "" && row.inflight == 0 {
          if victim.None? || row.lastUse < slots[victim.value].lastUse {
            victim := Some(i);
          }
        }
        i := i + 1;
      }
    }

    method Claim(i: nat, name: string)
      requires Shaped() && i < CAPACITY
      modifies slots
      ensures Shaped() && View() == old(View()).Claim(i, name)
    {
      slots[i] := Slot(name, 0, touch, 0, true);
    }

    method Retire(i: nat)
      requires Shaped() && i < CAPACITY
      modifies slots
      ensures Shaped() && View() == old(View()).Retire(i)
    {
      slots[i] := slots[i].(name := "", inflight := 0, usedOnce := true, reusableAt := allocations + quarantine);
    }

    method Exclude(addr: Octets)
      requires Shaped()
      modifies slots, marks, this`exclusions
      ensures Shaped() && View() == old(View()).Exclude(addr)
    {
      var slot := SlotOf(addr);
      if slot.None? || marks[slot.value] {
        return;
      }
      marks[slot.value] := true;
      exclusions := exclusions + 1;
      if slots[slot.value].name != "" {
        Retire(slot.value);
      }
    }

    /** Claim the first issuable row for a name, when there is one. */
    method IssueFree(name: string) returns (issued: Option<Octets>)
      requires Shaped()
      modifies slots
      ensures Shaped()
      ensures issued.Some? <==> old(View()).IssueFree(name).Some?
      ensures issued.Some? ==> Allocated(View(), issued) == old(View()).IssueFree(name).value
      ensures issued.None? ==> View() == old(View())
    {
      var free := FindFree();
      if free.Some? {
        Claim(free.value, name);
        return Some(FakeIpAt(free.value));
      }
      return None;
    }

    /** A new name, the clocks already advanced: a free row, else evict into the ring and look once more. */
    method Attempt(name: string) returns (issued: Option<Octets>)
      requires Shaped()
      modifies slots
      ensures Shaped() && Allocated(View(), issued) == old(View()).Attempt(name)
    {
      issued := IssueFree(name);
      if issued.Some? {
        return;
      }
      var victim := FindLru();
      if victim.Some? {
        Retire(victim.value);
      }
      issued := IssueFree(name);
    }

    method Alloc(name: string) returns (issued: Option<Octets>)
      requires Shaped()
      modifies slots, this`touch, this`allocations
      ensures Shaped() && Allocated(View(), issued) == old(View()).Alloc(name)
    {
      if name == "" {
        return None;
      }
      ghost var before := View();
      touch := touch + 1;
      var seen := FindName(name);
      assert seen == before.FindName(name) by {
        FindNameIgnoresClocks(before, View(), name, 0);
      }
      if seen.Some? {
        slots[seen.value] := slots[seen.value].(lastUse := touch);
        assert View() == before.Warm(seen.value);
        return Some(FakeIpAt(seen.value));
      }
      allocations := allocations + 1;
      assert View() == before.Ticked();
      issued := Attempt(name);
      assert Allocated(View(), issued) == before.Ticked().Attempt(name);
    }

    method OwnedSlot(fake: Octets) returns (r: Option<nat>)
      requires Shaped()
      ensures r == View().OwnedSlot(fake)
    {
      var slot := SlotOf(fake);
      if slot.None? || slots[slot.value].name == "" {
        return None;
      }
      return slot;
    }

    method Lookup(fake: Octets) returns (name: Option<string>)
      requires Shaped()
      ensures name == View().Lookup(fake)
    {
      var slot := SlotOf(fake);
      if slot.None? || slots[slot.value].name == "" {
        return None;
      }
      return Some(slots[slot.value].name);
    }

    method Pin(fake: Octets) returns (held: bool)
      requires Shaped()
      modifies slots
      ensures Shaped() && View() == old(View()).Pin(fake)
      ensures held <==> old(View()).Lookup(fake).Some?
    {
      var slot := OwnedSlot(fake);
      if slot.None? {
        return false;
      }
      slots[slot.value] := slots[slot.value].(inflight := slots[slot.value].inflight + 1);
      return true;
    }

    method Unpin(fake: Octets) returns (released: bool)
      requires Shaped()
      modifies slots
      ensures Shaped() && View() == old(View()).Unpin(fake)
      ensures released <==> old(View()) != View()
    {
      var slot := OwnedSlot(fake);
      if slot.None? || slots[slot.value].inflight == 0 {
        return false;
      }
      ghost var before := View();
      slots[slot.value] := slots[slot.value].(inflight := slots[slot.value].inflight - 1);
      assert View().rows[slot.value] != before.rows[slot.value];
      return true;
    }

    method NoteTouched(fake: Octets) returns (warmed: bool)
      requires Shaped()
      modifies slots, this`touch
      ensures Shaped() && View() == old(View()).NoteTouched(fake)
      ensures warmed <==> old(View()).Lookup(fake).Some?
    {
      var slot := OwnedSlot(fake);
      if slot.None? {
        return false;
      }
      touch := touch + 1;
      slots[slot.value] := slots[slot.value].(lastUse := touch);
      return true;
    }

    method NoteProgress(ticks: nat) returns (clock: nat)
      requires Shaped()
      modifies this`allocations
      ensures Shaped() && View() == old(View()).NoteProgress(ticks) && clock == View().allocations
    {
      allocations := allocations + ticks;
      return allocations;
    }

    method LiveNames() returns (n: nat)
      requires Shaped()
      ensures n == |View().LiveRows()|
    {
      n := 0;
      var i := 0;
      ghost var t, seen: set<nat> := View(), {};
      while i < slots.Length
        invariant 0 <= i <= CAPACITY
        invariant seen == (set k: nat | k < i && t.Live(k)) && n == |seen|
      {
        if slots[i].name != "" {
          n := n + 1;
          seen := seen + {i};
        }
        i := i + 1;
      }
      assert seen == t.LiveRows();
    }

    method Quarantined() returns (n: nat)
      requires Shaped()
      ensures n == |View().QuarantinedRows()|
    {
      n := 0;
      var i := 0;
      ghost var t, seen: set<nat> := View(), {};
      while i < slots.Length
        invariant 0 <= i <= CAPACITY
        invariant seen == (set k: nat | k < i && !t.Live(k) && !t.Claimable(k)) && n == |seen|
      {
        var claimable := Claimable(i);
        if slots[i].name == "" && !claimable {
          n := n + 1;
          seen := seen + {i};
        }
        i := i + 1;
      }
      assert seen == t.QuarantinedRows();
    }
  }

  /** The clocks have no say in where a name is. */
  lemma {:induction false} FindNameIgnoresClocks(t: Table, later: Table, name: string, i: nat)
    requires i <= CAPACITY && t.rows == later.rows
    ensures t.FindNameFrom(name, i) == later.FindNameFrom(name, i)
    decreases CAPACITY - i
  {
    if i < CAPACITY {
      FindNameIgnoresClocks(t, later, name, i + 1);
    }
  }
}
