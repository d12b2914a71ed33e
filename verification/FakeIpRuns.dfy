/**
 * What the fake-IP table promises over unbounded runs: addresses do not change
 * hands early, refusals end, and idle rows never outnumber the ring.
 */
module FakeIpRuns {
  import opened Basics
  import opened FakeIp

  /** A run: any well-formed table followed by any calls, one state per call boundary. */
  ghost predicate IsRun(states: seq<Table>, calls: seq<Call>) {
    && |states| == |calls| + 1
    && states[0].Valid()
    && forall k {:trigger calls[k]} :: 0 <= k < |calls| ==> states[k + 1] == Step(states[k], calls[k])
  }

  lemma {:induction false} RunIsValid(states: seq<Table>, calls: seq<Call>, k: nat)
    requires IsRun(states, calls) && k < |states|
    ensures states[k].Valid() && states[k].quarantine == states[0].quarantine
  {
    hide Step, Table.Valid;
    if k > 0 {
      RunIsValid(states, calls, k - 1);
      StepKeepsValid(states[k - 1], calls[k - 1]);
      StepKeepsClocks(states[k - 1], calls[k - 1]);
    }
  }

  lemma {:induction false} ClockIsMonotone(states: seq<Table>, calls: seq<Call>, i: nat, j: nat)
    requires IsRun(states, calls) && i <= j < |states|
    ensures states[i].allocations <= states[j].allocations
    decreases j
  {
    if i < j {
      ClockIsMonotone(states, calls, i, j - 1);
      StepKeepsClocks(states[j - 1], calls[j - 1]);
    }
  }

  // ------------------------------------------------------------ one call, one row

  /** Everything a new-name attempt can do to row r, the clocks already advanced. */
  lemma AttemptOnRow(t: Table, name: string, r: nat)
    requires r < CAPACITY && name != ""
    ensures var row := t.Attempt(name).table.rows[r];
            || row == t.rows[r]
            || (row == Slot(name, 0, t.touch, 0, true) && !t.excluded[r]
                && (t.Open(r) || (t.Evictable(r) && t.quarantine == 0)))
            || (row == t.Retire(r).rows[r] && t.Evictable(r))
    ensures t.Attempt(name).table == t.(rows := t.Attempt(name).table.rows)
  {
    if t.FindFree().None? {
      var v := t.FindLru();
      if v.Some? && t.EvictLru().FindFree().Some? {
        assert t.EvictLru().Open(t.EvictLru().FindFree().value);
      }
    }
  }

  /** A row that starts to hold a name was claimed by the alloc for that name, after its ring ran out. */
  lemma ClaimIsAged(t: Table, call: Call, r: nat)
    requires r < CAPACITY
    requires Step(t, call).Live(r) && Step(t, call).rows[r].name != t.rows[r].name
    ensures call == AllocCall(Step(t, call).rows[r].name)
    ensures !t.excluded[r]
    ensures !t.Live(r) && t.rows[r].usedOnce ==> Step(t, call).allocations >= t.rows[r].reusableAt
    ensures t.Live(r) ==> t.quarantine == 0
  {
    if call.AllocCall? && t.NewName(call.name) {
      AttemptOnRow(t.Ticked(), call.name, r);
    }
  }

  /**
   * A row that stops holding its name starts a whole ring of rest, unless it is claimed at once
   * under a ring of none.
   */
  lemma RetirementStartsRing(t: Table, call: Call, r: nat)
    requires r < CAPACITY && t.Live(r)
    requires Step(t, call).rows[r].name != t.rows[r].name
    ensures Step(t, call).rows[r].usedOnce
    ensures !Step(t, call).Live(r) ==>
              Step(t, call).rows[r].reusableAt == Step(t, call).allocations + t.quarantine
  {
    if call.AllocCall? && t.NewName(call.name) {
      AttemptOnRow(t.Ticked(), call.name, r);
    }
  }

  /** A free row that stays free keeps the tick at which it becomes reusable. */
  lemma FreeRowKeepsDeadline(t: Table, call: Call, r: nat)
    requires r < CAPACITY && !t.Live(r) && !Step(t, call).Live(r)
    ensures Step(t, call).rows[r] == t.rows[r]
    ensures !call.ExcludeCall? ==> Step(t, call).excluded == t.excluded
  {
    if call.AllocCall? && t.NewName(call.name) {
      AttemptOnRow(t.Ticked(), call.name, r);
    }
  }

  /** A pinned row keeps its name through every call but its own exclusion. */
  lemma PinnedLeavesOnlyByExclusion(t: Table, call: Call, fake: Octets)
    requires t.OwnedSlot(fake).Some? && t.rows[t.OwnedSlot(fake).value].inflight > 0
    ensures Step(t, call).Lookup(fake) == t.Lookup(fake) || call == ExcludeCall(fake)
  {
    var i := t.OwnedSlot(fake).value;
    SlotRoundTrip(fake, i);
    if call.ExcludeCall? && SlotOf(call.addr) == Some(i) {
      SlotRoundTrip(call.addr, i);
    } else if call.AllocCall? && t.NewName(call.name) {
      AttemptOnRow(t.Ticked(), call.name, i);
    }
  }

  // ------------------------------------------------------------- no misroute

  /** The first call at or after `lo` that changes the name of row r. */
  lemma {:induction false} FirstChange(states: seq<Table>, calls: seq<Call>, r: nat, lo: nat, hi: nat) returns (at: nat)
    requires IsRun(states, calls) && r < CAPACITY && lo < hi < |states|
    requires states[lo].rows[r].name != states[hi].rows[r].name
    ensures lo <= at < hi
    ensures forall k :: lo <= k <= at ==> states[k].rows[r].name == states[lo].rows[r].name
    ensures states[at + 1].rows[r].name != states[lo].rows[r].name
    decreases hi - lo
  {
    if states[lo + 1].rows[r].name != states[lo].rows[r].name {
      at := lo;
    } else {
      at := FirstChange(states, calls, r, lo + 1, hi);
    }
  }

  /** The last call before `hi` that changes the name of row r. */
  lemma {:induction false} LastChange(states: seq<Table>, calls: seq<Call>, r: nat, lo: nat, hi: nat) returns (at: nat)
    requires IsRun(states, calls) && r < CAPACITY && lo < hi < |states|
    requires states[lo].rows[r].name != states[hi].rows[r].name
    ensures lo <= at < hi
    ensures states[at].rows[r].name != states[hi].rows[r].name
    ensures forall k :: at < k <= hi ==> states[k].rows[r].name == states[hi].rows[r].name
    decreases hi - lo
  {
    if states[hi - 1].rows[r].name != states[hi].rows[r].name {
      at := hi - 1;
    } else {
      at := LastChange(states, calls, r, lo, hi - 1);
    }
  }

  lemma {:induction false} FreeStretch(states: seq<Table>, calls: seq<Call>, r: nat, lo: nat, hi: nat)
    requires IsRun(states, calls) && r < CAPACITY && lo <= hi < |states|
    requires forall k :: lo <= k <= hi ==> !states[k].Live(r)
    ensures states[hi].rows[r] == states[lo].rows[r]
    decreases hi
  {
    if lo != hi {
      FreeStretch(states, calls, r, lo, hi - 1);
      FreeRowKeepsDeadline(states[hi - 1], calls[hi - 1], r);
    }
  }

  /** A used free row is claimed only once the ring clock has reached its deadline. */
  lemma FreeRowWaits(states: seq<Table>, calls: seq<Call>, r: nat, free: nat, j: nat)
    requires IsRun(states, calls) && r < CAPACITY && free < j < |states|
    requires !states[free].Live(r) && states[free].rows[r].usedOnce && states[j].Live(r)
    ensures states[j].allocations >= states[free].rows[r].reusableAt
  {
    var claim := FirstChange(states, calls, r, free, j);
    FreeStretch(states, calls, r, free, claim);
    ClaimIsAged(states[claim], calls[claim], r);
    ClockIsMonotone(states, calls, claim + 1, j);
  }

  lemma RetirementInRun(states: seq<Table>, calls: seq<Call>, r: nat, retired: nat)
    requires IsRun(states, calls) && r < CAPACITY && retired < |calls|
    requires states[retired].Live(r) && states[retired + 1].rows[r].name != states[retired].rows[r].name
    ensures states[retired + 1].rows[r].usedOnce
    ensures states[retired + 1].Live(r) ==> states[0].quarantine == 0
    ensures !states[retired + 1].Live(r) ==>
              states[retired + 1].rows[r].reusableAt == states[retired + 1].allocations + states[0].quarantine
  {
    RunIsValid(states, calls, retired);
    RetirementStartsRing(states[retired], calls[retired], r);
    if states[retired + 1].Live(r) {
      ClaimIsAged(states[retired], calls[retired], r);
    }
  }

  /**
   * A row that lost a name at call `retired` holds another one only once the ring
   * clock has advanced by a whole ring.
   */
  lemma ReuseWaitsARing(states: seq<Table>, calls: seq<Call>, r: nat, retired: nat, j: nat)
    requires IsRun(states, calls) && r < CAPACITY && retired < j < |states|
    requires states[retired].Live(r) && states[retired + 1].rows[r].name != states[retired].rows[r].name
    requires states[j].Live(r)
    ensures states[j].allocations >= states[retired + 1].allocations + states[0].quarantine
  {
    RetirementInRun(states, calls, r, retired);
    if states[retired + 1].Live(r) {
      ClockIsMonotone(states, calls, retired + 1, j);
    } else {
      FreeRowWaits(states, calls, r, retired + 1, j);
    }
  }

  /** NoMisroute, told of a row instead of an address. */
  lemma RowChangesHandsLate(states: seq<Table>, calls: seq<Call>, r: nat, i: nat, j: nat)
    returns (retired: nat, claimed: nat)
    requires IsRun(states, calls) && r < CAPACITY && i < j < |states|
    requires states[i].Live(r) && states[j].Live(r) && states[i].rows[r].name != states[j].rows[r].name
    ensures i <= retired <= claimed < j
    ensures states[retired].rows[r].name == states[i].rows[r].name != states[retired + 1].rows[r].name
    ensures states[claimed].rows[r].name != states[j].rows[r].name == states[claimed + 1].rows[r].name
    ensures calls[claimed] == AllocCall(states[j].rows[r].name)
    ensures states[retired + 1].Live(r) ==> states[0].quarantine == 0
    ensures states[claimed + 1].allocations >= states[retired + 1].allocations + states[0].quarantine
  {
    hide Step;
    retired := FirstChange(states, calls, r, i, j);
    RunIsValid(states, calls, retired);
    if states[retired + 1].Live(r) {
      ClaimIsAged(states[retired], calls[retired], r);
    }
    claimed := LastChange(states, calls, r, retired, j);
    ClaimIsAged(states[claimed], calls[claimed], r);
    ReuseWaitsARing(states, calls, r, retired, claimed + 1);
  }

  /**
   * No misroute.  An address that answered n and later answers another name m was
   * retired in between; m got it by its own alloc, and by then the ring clock had
   * advanced a full ring past the retirement of n.
   */
  lemma NoMisroute(states: seq<Table>, calls: seq<Call>, fake: Octets, i: nat, j: nat, n: string, m: string)
    returns (retired: nat, claimed: nat)
    requires IsRun(states, calls) && i <= j < |states|
    requires states[i].Lookup(fake) == Some(n) && states[j].Lookup(fake) == Some(m) && m != n
    ensures i <= retired <= claimed < j
    ensures states[retired].Lookup(fake) == Some(n) && states[retired + 1].Lookup(fake) != Some(n)
    ensures states[0].quarantine > 0 ==> states[retired + 1].Lookup(fake) == None
    ensures calls[claimed] == AllocCall(m)
    ensures states[claimed].Lookup(fake) != Some(m) && states[claimed + 1].Lookup(fake) == Some(m)
    ensures states[claimed + 1].allocations >= states[retired + 1].allocations + states[0].quarantine
  {
    retired, claimed := RowChangesHandsLate(states, calls, SlotOf(fake).value, i, j);
  }

  /** Until a ring has passed since its retirement, an address answers nothing at all. */
  lemma SilentWhileAgeing(states: seq<Table>, calls: seq<Call>, fake: Octets, retired: nat, k: nat)
    requires IsRun(states, calls) && retired < k < |states|
    requires states[retired].Lookup(fake).Some? && states[retired + 1].Lookup(fake) != states[retired].Lookup(fake)
    requires states[k].allocations < states[retired + 1].allocations + states[0].quarantine
    ensures states[k].Lookup(fake) == None
  {
    var r := SlotOf(fake).value;
    if states[k].Live(r) {
      ReuseWaitsARing(states, calls, r, retired, k);
    }
  }

  // ------------------------------------------------------------ pins and the clock

  /** Pinning a held address and unpinning it leaves the table as it was, and unpinning never goes below none. */
  lemma UnpinUndoesPin(t: Table, fake: Octets)
    ensures t.Lookup(fake).Some? ==> t.Pin(fake).Unpin(fake) == t && t.Pin(fake) != t
    ensures t.Lookup(fake).None? ==> t.Pin(fake) == t.Unpin(fake) == t
    ensures t.Pin(fake).Lookup(fake) == t.Lookup(fake)
  {
    if t.OwnedSlot(fake).Some? {
      var i := t.OwnedSlot(fake).value;
      assert t.Pin(fake).rows[i] != t.rows[i];
      assert t.Pin(fake).Unpin(fake).rows == t.rows;
    }
  }

  /** A ring's worth of progress drains the ring: no row in circulation is left waiting. */
  lemma ProgressDrainsTheRing(t: Table, ticks: nat)
    requires t.Valid() && ticks >= t.quarantine
    ensures t.NoteProgress(ticks).QuarantinedRows() == t.ExcludedRows()
  {
    var later := t.NoteProgress(ticks);
    forall i: nat | i < CAPACITY ensures i in later.QuarantinedRows() <==> i in t.ExcludedRows() {
      assert t.Resting(i) ==> later.Claimable(i);
    }
  }
}
