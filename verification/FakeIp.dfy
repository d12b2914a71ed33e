/**
 * The fake-IP name table: names in, addresses of 198.51.100.0/24 out, and back.
 *
 * This module is the table as a value.  Every call of the table is a member
 * function from a table to a table; `FakeIpTable` is the class that performs the
 * same calls in place, and `FakeIpRuns` is about unbounded sequences of them.
 */
module FakeIp {
  import opened Basics

  /** Rows of the range: host bytes 1 through 254. */
  const CAPACITY := 254
  const FIRST_HOST := 1

  datatype Octets = Octets(a: byte, b: byte, c: byte, d: byte)

  predicate InFakeRange(v4: Octets) {
    v4.a == 198 && v4.b == 51 && v4.c == 100
  }

  function FakeIpAt(slot: nat): Octets {
    Octets(198, 51, 100, (slot + FIRST_HOST) % 256)
  }

  function SlotOf(v4: Octets): Option<nat> {
    if !InFakeRange(v4) then None
    else if v4.d < FIRST_HOST || v4.d >= FIRST_HOST + CAPACITY then None
    else Some(v4.d - FIRST_HOST)
  }

  /** The two address helpers are each other's inverse: rows and issuable addresses correspond one to one. */
  lemma SlotRoundTrip(v4: Octets, slot: nat)
    ensures SlotOf(v4) == Some(slot) <==> slot < 254 && v4 == Octets(198, 51, 100, slot + 1)
    ensures slot < 254 ==> FakeIpAt(slot) == Octets(198, 51, 100, slot + 1)
  {
  }

  /** One candidate address.  An empty name means the row is free. */
  datatype Slot = Slot(name: string, inflight: nat, lastUse: nat, reusableAt: nat, usedOnce: bool)

  const BLANK_SLOT := Slot("", 0, 0, 0, false)

  type Rows = s: seq<Slot> | |s| == CAPACITY witness seq(CAPACITY, _ => BLANK_SLOT)
  type Marks = s: seq<bool> | |s| == CAPACITY witness seq(CAPACITY, _ => false)

  /** What alloc answers: the table afterwards and the address, when there was one to give. */
  datatype Allocated = Allocated(table: Table, issued: Option<Octets>)

  datatype Table = Table(
    rows: Rows,
    excluded: Marks,
    exclusions: nat,
    quarantine: nat,
    touch: nat,        // LRU clock
    allocations: nat   // ring clock
  ) {
    predicate Live(i: nat) requires i < CAPACITY { rows[i].name != "" }

    predicate Claimable(i: nat) requires i < CAPACITY {
      !excluded[i] && (!rows[i].usedOnce || allocations >= rows[i].reusableAt)
    }

    /** Free and issuable right now. */
    predicate Open(i: nat) requires i < CAPACITY { !Live(i) && Claimable(i) }

    predicate Evictable(i: nat) requires i < CAPACITY { Live(i) && rows[i].inflight == 0 }

    function FindNameFrom(name: string, i: nat): (r: Option<nat>)
      requires i <= CAPACITY
      ensures r.Some? ==> i <= r.value < CAPACITY && rows[r.value].name == name
      ensures forall k :: i <= k < (if r.Some? then r.value else CAPACITY) ==> rows[k].name != name
      decreases CAPACITY - i
    {
      if i == CAPACITY then None
      else if rows[i].name == name then Some(i)
      else FindNameFrom(name, i + 1)
    }

    function FindName(name: string): Option<nat> { FindNameFrom(name, 0) }

    function FindFreeFrom(i: nat): (r: Option<nat>)
      requires i <= CAPACITY
      ensures r.Some? ==> i <= r.value < CAPACITY && Open(r.value)
      ensures forall k :: i <= k < (if r.Some? then r.value else CAPACITY) ==> !Open(k)
      decreases CAPACITY - i
    {
      if i == CAPACITY then None
      else if Open(i) then Some(i)
      else FindFreeFrom(i + 1)
    }

    function FindFree(): Option<nat> { FindFreeFrom(0) }

    /** The least recently used unpinned name among the first n rows, the lowest row on a tie. */
    function LruBelow(n: nat): (r: Option<nat>)
      requires n <= CAPACITY
      ensures r.Some? ==> r.value < n && Evictable(r.value)
      ensures r.None? ==> forall k :: 0 <= k < n ==> !Evictable(k)
      ensures r.Some? ==> forall k :: 0 <= k < n && Evictable(k) ==>
                rows[r.value].lastUse < rows[k].lastUse || (rows[r.value].lastUse == rows[k].lastUse && r.value <= k)
    {
      if n == 0 then None
      else
        var victim := LruBelow(n - 1);
        if !Evictable(n - 1) then victim
        else if victim.None? || rows[n - 1].lastUse < rows[victim.value].lastUse then Some(n - 1)
        else victim
    }

    function FindLru(): Option<nat> { LruBelow(CAPACITY) }

    function Claim(i: nat, name: string): Table
      requires i < CAPACITY
    {
      this.(rows := rows[i := Slot(name, 0, touch, 0, true)])
    }

    function Retire(i: nat): Table
      requires i < CAPACITY
    {
      this.(rows := rows[i := rows[i].(name := "", inflight := 0, usedOnce := true,
                                       reusableAt := allocations + quarantine)])
    }

    function EvictLru(): Table {
      match FindLru()
      case Some(victim) => Retire(victim)
      case None => this
    }

    function IssueFree(name: string): Option<Allocated> {
      match FindFree()
      case Some(i) => Some(Allocated(Claim(i, name), Some(FakeIpAt(i))))
      case None => None
    }

    /** The clocks as a new-name attempt finds them, refused or not. */
    function Ticked(): Table {
      this.(touch := touch + 1, allocations := allocations + 1)
    }

    /** A name the table does not hold yet. */
    predicate NewName(name: string) { name != "" && FindName(name).None? }

    /** The attempt proper, both clocks already advanced: a free row, else one eviction and a second look. */
    function Attempt(name: string): Allocated {
      match IssueFree(name)
      case Some(done) => done
      case None =>
        match EvictLru().IssueFree(name)
        case Some(done) => done
        case None => Allocated(EvictLru(), None)
    }

    function Warm(i: nat): Table
      requires i < CAPACITY
    {
      this.(touch := touch + 1, rows := rows[i := rows[i].(lastUse := touch + 1)])
    }

    function Alloc(name: string): Allocated {
      if name == "" then Allocated(this, None)
      else
        match FindName(name)
        case Some(i) => Allocated(Warm(i), Some(FakeIpAt(i)))
        case None => Ticked().Attempt(name)
    }

    /** The row an address currently owns. */
    function OwnedSlot(fake: Octets): (r: Option<nat>)
      ensures r.Some? ==> r.value < CAPACITY && Live(r.value)
    {
      match SlotOf(fake)
      case None => None
      case Some(i) => if Live(i) then Some(i) else None
    }

    function Lookup(fake: Octets): Option<string> {
      match OwnedSlot(fake)
      case Some(i) => Some(rows[i].name)
      case None => None
    }

    function Exclude(addr: Octets): Table {
      match SlotOf(addr)
      case None => this
      case Some(i) =>
        if excluded[i] then this
        else
          var marked := this.(excluded := excluded[i := true], exclusions := exclusions + 1);
          if Live(i) then marked.Retire(i) else marked
    }

    function Pin(fake: Octets): Table {
      match OwnedSlot(fake)
      case Some(i) => this.(rows := rows[i := rows[i].(inflight := rows[i].inflight + 1)])
      case None => this
    }

    function Unpin(fake: Octets): Table {
      match OwnedSlot(fake)
      case Some(i) =>
        if rows[i].inflight == 0 then this
        else this.(rows := rows[i := rows[i].(inflight := rows[i].inflight - 1)])
      case None => this
    }

    function NoteTouched(fake: Octets): Table {
      match OwnedSlot(fake)
      case Some(i) => Warm(i)
      case None => this
    }

    function NoteProgress(ticks: nat): Table {
      this.(allocations := allocations + ticks)
    }

    // ------------------------------------------------------------ row classes

    ghost function LiveRows(): set<nat> { set i: nat | i < CAPACITY && Live(i) }

    ghost function ExcludedRows(): set<nat> { set i: nat | i < CAPACITY && excluded[i] }

    /** Rows in circulation that hold no name. */
    ghost function IdleRows(): set<nat> { set i: nat | i < CAPACITY && !Live(i) && !excluded[i] }

    ghost function QuarantinedRows(): set<nat> { set i: nat | i < CAPACITY && !Live(i) && !Claimable(i) }

    /** Retired, in circulation, and not issued again since. */
    ghost predicate Resting(i: nat) requires i < CAPACITY {
      !Live(i) && !excluded[i] && rows[i].usedOnce
    }

    /** The addresses the table can ever hold. */
    function Capacity(): int { CAPACITY - exclusions }

    // -------------------------------------------------------------- invariant

    /** Each live name has one row; live rows carry distinct past touches and are never excluded. */
    ghost predicate NamesOk() {
      && (forall i :: 0 <= i < CAPACITY && Live(i) ==> rows[i].usedOnce && !excluded[i] && rows[i].lastUse <= touch)
      && (forall i, j :: 0 <= i < j < CAPACITY && Live(i) && Live(j) ==>
                           rows[i].name != rows[j].name && rows[i].lastUse != rows[j].lastUse)
      && (forall i :: 0 <= i < CAPACITY && !Live(i) ==> rows[i].inflight == 0)
    }

    /** No two resting rows become reusable at the same tick, and none later than one ring from now. */
    ghost predicate RingOk() {
      && (forall i :: 0 <= i < CAPACITY && Resting(i) ==> rows[i].reusableAt <= allocations + quarantine)
      && (forall i, j :: 0 <= i < j < CAPACITY && Resting(i) && Resting(j) ==> rows[i].reusableAt != rows[j].reusableAt)
    }

    ghost predicate Absent(name: string) {
      forall k :: 0 <= k < CAPACITY ==> rows[k].name != name
    }

    /** No live row has been touched at this very tick yet. */
    ghost predicate TouchAhead() {
      forall k :: 0 <= k < CAPACITY && Live(k) ==> rows[k].lastUse < touch
    }

    /** A row retired at this very tick would be the last of the ring to come back. */
    ghost predicate RingAhead() {
      forall k :: 0 <= k < CAPACITY && Resting(k) ==> rows[k].reusableAt < allocations + quarantine
    }

    ghost predicate Valid() {
      NamesOk() && RingOk() && exclusions == |ExcludedRows()|
    }
  }

  /** A table nobody has used yet, before its constructor's exclusion. */
  function Fresh(quarantine: nat): Table {
    Table(seq(CAPACITY, _ => BLANK_SLOT), seq(CAPACITY, _ => false), 0, quarantine, 0, 0)
  }

  /** Every call that changes the table. */
  datatype Call =
    | AllocCall(name: string)
    | ExcludeCall(addr: Octets)
    | PinCall(addr: Octets)
    | UnpinCall(addr: Octets)
    | TouchCall(addr: Octets)
    | ProgressCall(ticks: nat)

  function Step(t: Table, call: Call): Table {
    match call
    case AllocCall(name) => t.Alloc(name).table
    case ExcludeCall(addr) => t.Exclude(addr)
    case PinCall(addr) => t.Pin(addr)
    case UnpinCall(addr) => t.Unpin(addr)
    case TouchCall(addr) => t.NoteTouched(addr)
    case ProgressCall(ticks) => t.NoteProgress(ticks)
  }

  // ------------------------------------------------- what one call preserves

  lemma FreshIsValid(quarantine: nat)
    ensures Fresh(quarantine).Valid()
  {
    assert Fresh(quarantine).ExcludedRows() == {};
  }

  lemma ClaimKeepsValid(t: Table, i: nat, name: string)
    requires t.Valid() && i < CAPACITY && t.Open(i)
    requires name != "" && t.Absent(name) && t.TouchAhead()
    ensures t.Claim(i, name).Valid()
  {
    assert t.Claim(i, name).ExcludedRows() == t.ExcludedRows();
  }

  lemma RetireKeepsValid(t: Table, i: nat)
    requires t.Valid() && i < CAPACITY && t.Live(i)
    requires t.RingAhead() || t.excluded[i]
    ensures t.Retire(i).Valid()
  {
    assert t.Retire(i).ExcludedRows() == t.ExcludedRows();
  }

  /** Warming one row keeps the table well formed. */
  lemma WarmKeepsValid(t: Table, i: nat)
    requires t.Valid() && i < CAPACITY && t.Live(i)
    ensures t.Warm(i).Valid()
  {
    assert t.Warm(i).ExcludedRows() == t.ExcludedRows();
  }

  lemma TickedKeepsValid(t: Table)
    requires t.Valid()
    ensures t.Ticked().Valid() && t.Ticked().TouchAhead() && t.Ticked().RingAhead()
  {
    assert t.Ticked().ExcludedRows() == t.ExcludedRows();
  }

  lemma EvictKeepsValid(t: Table)
    requires t.Valid() && t.TouchAhead() && t.RingAhead()
    ensures t.EvictLru().Valid() && t.EvictLru().TouchAhead()
    ensures forall name :: name != "" && t.Absent(name) ==> t.EvictLru().Absent(name)
  {
    if t.FindLru().Some? {
      RetireKeepsValid(t, t.FindLru().value);
    }
  }

  lemma IssueKeepsValid(t: Table, name: string)
    requires t.Valid() && t.TouchAhead() && name != "" && t.Absent(name)
    ensures t.IssueFree(name).Some? ==> t.IssueFree(name).value.table.Valid()
  {
    if t.FindFree().Some? {
      ClaimKeepsValid(t, t.FindFree().value, name);
    }
  }

  lemma NewNameIsAbsent(t: Table, name: string)
    ensures t.NewName(name) <==> name != "" && t.Absent(name)
  {
  }

  lemma AttemptKeepsValid(t: Table, name: string)
    requires t.Valid() && t.TouchAhead() && t.RingAhead() && name != "" && t.Absent(name)
    ensures t.Attempt(name).table.Valid()
  {
    IssueKeepsValid(t, name);
    EvictKeepsValid(t);
    IssueKeepsValid(t.EvictLru(), name);
  }

  lemma AllocKeepsValid(t: Table, name: string)
    requires t.Valid()
    ensures t.Alloc(name).table.Valid()
  {
    if name != "" {
      match t.FindName(name)
      case Some(i) => WarmKeepsValid(t, i);
      case None =>
        TickedKeepsValid(t);
        AttemptKeepsValid(t.Ticked(), name);
    }
  }

  /** Row i emptied and taken out of circulation, whatever clock values it carries. */
  function Emptied(t: Table, i: nat, slot: Slot): Table
    requires i < CAPACITY
  {
    t.(rows := t.rows[i := slot], excluded := t.excluded[i := true], exclusions := t.exclusions + 1)
  }

  lemma EmptiedKeepsNames(t: Table, i: nat, slot: Slot)
    requires t.NamesOk() && i < CAPACITY && slot.name == "" && slot.inflight == 0
    ensures Emptied(t, i, slot).NamesOk()
  {
    assert forall k :: 0 <= k < CAPACITY && Emptied(t, i, slot).Live(k) ==> t.Live(k) && k != i;
  }

  lemma EmptiedKeepsRing(t: Table, i: nat, slot: Slot)
    requires t.RingOk() && i < CAPACITY
    ensures Emptied(t, i, slot).RingOk()
  {
    assert forall k :: 0 <= k < CAPACITY && Emptied(t, i, slot).Resting(k) ==> t.Resting(k) && k != i;
  }

  lemma EmptiedIsCounted(t: Table, i: nat, slot: Slot)
    requires i < CAPACITY && !t.excluded[i] && t.exclusions == |t.ExcludedRows()|
    ensures Emptied(t, i, slot).exclusions == |Emptied(t, i, slot).ExcludedRows()|
  {
    assert Emptied(t, i, slot).ExcludedRows() == t.ExcludedRows() + {i};
  }

  lemma ExcludeKeepsValid(t: Table, addr: Octets)
    requires t.Valid()
    ensures t.Exclude(addr).Valid()
  {
    var slot := SlotOf(addr);
    if slot.Some? && !t.excluded[slot.value] {
      var i := slot.value;
      var row := t.Exclude(addr).rows[i];
      assert t.Exclude(addr) == Emptied(t, i, row) && row.name == "" && row.inflight == 0;
      hide Table.NamesOk, Table.RingOk, Table.ExcludedRows, Table.Exclude, Emptied;
      EmptiedKeepsNames(t, i, row);
      EmptiedKeepsRing(t, i, row);
      EmptiedIsCounted(t, i, row);
    }
  }

  lemma PinnedRowKeepsValid(t: Table, i: nat, inflight: nat)
    requires t.Valid() && i < CAPACITY && t.Live(i)
    ensures t.(rows := t.rows[i := t.rows[i].(inflight := inflight)]).Valid()
  {
    assert t.(rows := t.rows[i := t.rows[i].(inflight := inflight)]).ExcludedRows() == t.ExcludedRows();
  }

  lemma PinKeepsValid(t: Table, addr: Octets)
    requires t.Valid()
    ensures t.Pin(addr).Valid()
  {
    if t.OwnedSlot(addr).Some? {
      var i := t.OwnedSlot(addr).value;
      PinnedRowKeepsValid(t, i, t.rows[i].inflight + 1);
    }
  }

  lemma UnpinKeepsValid(t: Table, addr: Octets)
    requires t.Valid()
    ensures t.Unpin(addr).Valid()
  {
    if t.OwnedSlot(addr).Some? {
      var i := t.OwnedSlot(addr).value;
      if t.rows[i].inflight != 0 {
        PinnedRowKeepsValid(t, i, t.rows[i].inflight - 1);
      }
    }
  }

  lemma TouchKeepsValid(t: Table, addr: Octets)
    requires t.Valid()
    ensures t.NoteTouched(addr).Valid()
  {
    if t.OwnedSlot(addr).Some? {
      WarmKeepsValid(t, t.OwnedSlot(addr).value);
    }
  }

  lemma ProgressKeepsValid(t: Table, ticks: nat)
    requires t.Valid()
    ensures t.NoteProgress(ticks).Valid()
  {
    assert t.NoteProgress(ticks).ExcludedRows() == t.ExcludedRows();
  }

  /** Every call keeps the table well formed. */
  lemma StepKeepsValid(t: Table, call: Call)
    requires t.Valid()
    ensures Step(t, call).Valid()
  {
    match call
    case AllocCall(name) => AllocKeepsValid(t, name);
    case ExcludeCall(addr) => ExcludeKeepsValid(t, addr);
    case PinCall(addr) => PinKeepsValid(t, addr);
    case UnpinCall(addr) => UnpinKeepsValid(t, addr);
    case TouchCall(addr) => TouchKeepsValid(t, addr);
    case ProgressCall(ticks) => ProgressKeepsValid(t, ticks);
  }

  /** The ring length never changes and the ring clock never runs backwards. */
  lemma StepKeepsClocks(t: Table, call: Call)
    ensures Step(t, call).quarantine == t.quarantine
    ensures Step(t, call).allocations >= t.allocations
  {
  }
}
