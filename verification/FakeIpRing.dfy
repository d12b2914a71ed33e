/**
 * The ring's two promises about availability: once the table has run dry it
 * never leaves more rows idle than the ring is long, and no streak of refusals is
 * longer than the ring.
 */
module FakeIpRing {
  import opened Basics
  import opened FakeIp
  import opened FakeIpRuns

  // ------------------------------------------------------------- idle rows

  lemma DisjointSizes(a: set<nat>, b: set<nat>, c: set<nat>, n: nat)
    requires a !! b && a !! c && b !! c
    requires forall i: nat :: i < n <==> i in a || i in b || i in c
    ensures |a| + |b| + |c| == n
  {
    assert a + b + c == Below(n);
    assert |a + b + c| == |a + b| + |c| == |a| + |b| + |c|;
  }

  /** Live, idle and excluded rows share out the range. */
  lemma RowsPartition(t: Table)
    requires forall i :: 0 <= i < CAPACITY && t.Live(i) ==> !t.excluded[i]
    requires t.exclusions == |t.ExcludedRows()|
    ensures |t.LiveRows()| + |t.IdleRows()| == t.Capacity()
  {
    var live, idle, excluded := t.LiveRows(), t.IdleRows(), t.ExcludedRows();
    forall i: nat ensures i < CAPACITY <==> i in live || i in idle || i in excluded {
      if i < CAPACITY {
        assert i in live || i in idle || i in excluded;
      }
    }
    DisjointSizes(live, idle, excluded, CAPACITY);
  }

  /** With nothing issuable every idle row is ageing, and distinct deadlines within one ring are few. */
  lemma AgeingFitsRing(t: Table)
    requires t.Valid() && t.FindFree().None?
    ensures |t.IdleRows()| <= t.quarantine
  {
    var deadlines := seq(CAPACITY, i requires 0 <= i < CAPACITY => t.rows[i].reusableAt as int);
    forall i <- t.IdleRows() ensures t.Resting(i) && t.allocations < deadlines[i] {
      assert !t.Open(i);
    }
    Pigeonhole(t.IdleRows(), deadlines, t.allocations, t.allocations + t.quarantine);
  }

  /** The call asks for a new name and finds nothing issuable. */
  ghost predicate Starved(t: Table, call: Call) {
    call.AllocCall? && t.NewName(call.name) && t.Ticked().FindFree().None?
  }

  lemma ClaimTakesIdle(t: Table, i: nat, name: string)
    requires i < CAPACITY && t.Open(i) && name != ""
    ensures i in t.IdleRows() && t.Claim(i, name).IdleRows() == t.IdleRows() - {i}
  {
  }

  lemma StarvedAttemptIdle(t: Table, name: string)
    requires t.Valid() && t.TouchAhead() && t.RingAhead() && name != "" && t.Absent(name)
    requires t.FindFree().None?
    ensures |t.Attempt(name).table.IdleRows()| <= t.quarantine
  {
    AttemptKeepsValid(t, name);
    EvictKeepsValid(t);
    var evicted := t.EvictLru();
    if evicted.FindFree().None? {
      AgeingFitsRing(evicted);
    } else {
      AgeingFitsRing(t);
      ClaimTakesIdle(evicted, evicted.FindFree().value, name);
      assert t.FindLru().Some? ==> evicted.IdleRows() <= t.IdleRows() + {t.FindLru().value};
      SubsetSize(t.Attempt(name).table.IdleRows(), evicted.IdleRows() - {evicted.FindFree().value});
      if t.FindLru().Some? {
        SubsetSize(evicted.IdleRows(), t.IdleRows() + {t.FindLru().value});
      }
    }
  }

  /** A starved call leaves at most a ring of idle rows. */
  lemma StarvedLeavesARing(t: Table, call: Call)
    requires t.Valid() && Starved(t, call)
    ensures |Step(t, call).IdleRows()| <= t.quarantine
  {
    NewNameIsAbsent(t, call.name);
    TickedKeepsValid(t);
    StarvedAttemptIdle(t.Ticked(), call.name);
  }

  /** No other call makes a row idle. */
  lemma OnlyStarvationIdles(t: Table, call: Call)
    requires !Starved(t, call)
    ensures Step(t, call).IdleRows() <= t.IdleRows()
  {
    forall r <- Step(t, call).IdleRows() ensures r in t.IdleRows() {
      if call.AllocCall? && t.NewName(call.name) {
        AttemptOnRow(t.Ticked(), call.name, r);
      }
    }
  }

  ghost predicate IdleWithinRing(t: Table) { |t.IdleRows()| <= t.quarantine }

  lemma IdleStep(t: Table, call: Call)
    requires t.Valid()
    requires Starved(t, call) || IdleWithinRing(t)
    ensures IdleWithinRing(Step(t, call))
  {
    StepKeepsClocks(t, call);
    if Starved(t, call) {
      StarvedLeavesARing(t, call);
    } else {
      OnlyStarvationIdles(t, call);
      SubsetSize(Step(t, call).IdleRows(), t.IdleRows());
    }
  }

  lemma {:induction false} IdleStays(states: seq<Table>, calls: seq<Call>, i: nat, j: nat)
    requires IsRun(states, calls) && i <= j < |states| && IdleWithinRing(states[i])
    ensures IdleWithinRing(states[j])
    decreases j
  {
    if i != j {
      var k := j - 1;
      IdleStays(states, calls, i, k);
      RunIsValid(states, calls, k);
      IdleStep(states[k], calls[k]);
    }
  }

  /** The names held and one ring's worth of rows account for the whole capacity. */
  ghost predicate MostlyLive(t: Table) {
    |t.LiveRows()| + t.quarantine >= t.Capacity()
  }

  lemma IdleMeansMostlyLive(t: Table)
    requires t.Valid() && IdleWithinRing(t)
    ensures MostlyLive(t)
  {
    RowsPartition(t);
  }

  /**
   * Once an alloc has found nothing issuable, the names held and one ring's worth of
   * rows account for the whole capacity, in every later state of the run.
   */
  lemma RingBoundsIdle(states: seq<Table>, calls: seq<Call>, i: nat, j: nat)
    requires IsRun(states, calls) && i < j < |states| && Starved(states[i], calls[i])
    ensures MostlyLive(states[j])
  {
    hide Step;
    RunIsValid(states, calls, i);
    IdleStep(states[i], calls[i]);
    IdleStays(states, calls, i + 1, j);
    RunIsValid(states, calls, j);
    IdleMeansMostlyLive(states[j]);
  }

  // ------------------------------------------------------------- refusals

  /** An attempt for a new name that gets no address. */
  ghost predicate Refused(t: Table, call: Call) {
    call.AllocCall? && t.NewName(call.name) && t.Alloc(call.name).issued.None?
  }

  /** An attempt for a new name that gets one. */
  ghost predicate Served(t: Table, call: Call) {
    call.AllocCall? && t.NewName(call.name) && t.Alloc(call.name).issued.Some?
  }

  lemma AttemptRefusedExactlyWhen(t: Table, name: string)
    requires t.Valid()
    ensures t.Attempt(name).issued.None? <==>
              && (forall i :: 0 <= i < CAPACITY ==> !t.Open(i))
              && (t.quarantine > 0 || forall i :: 0 <= i < CAPACITY ==> !t.Evictable(i))
  {
    if t.FindFree().None? && t.FindLru().Some? {
      var v := t.FindLru().value;
      assert t.EvictLru().Open(v) <==> t.quarantine == 0;
      forall i: nat | i < CAPACITY && i != v ensures !t.EvictLru().Open(i) {
        assert !t.Open(i);
      }
    }
  }

  /**
   * Exactly when a new name is refused: nothing is issuable, and eviction cannot help
   * because every name is pinned or because the evicted row has a ring to sit out.
   */
  lemma RefusedExactlyWhen(t: Table, name: string)
    requires t.Valid() && t.NewName(name)
    ensures t.Alloc(name).issued.None? <==>
              && (forall i :: 0 <= i < CAPACITY ==> !t.Ticked().Open(i))
              && (t.quarantine > 0 || forall i :: 0 <= i < CAPACITY ==> !t.Evictable(i))
  {
    TickedKeepsValid(t);
    AttemptRefusedExactlyWhen(t.Ticked(), name);
    assert forall i :: 0 <= i < CAPACITY ==> t.Ticked().Evictable(i) == t.Evictable(i);
  }

  /** Row r is free and will be issuable no later than one ring after the clock reads `since`. */
  ghost predicate Promised(t: Table, r: nat, since: nat)
    requires r < CAPACITY
  {
    !t.Live(r) && !t.excluded[r] && (t.rows[r].usedOnce ==> t.rows[r].reusableAt <= since + t.quarantine)
  }

  lemma RefusedAttemptPromises(t: Table, name: string, r: nat) returns (promised: nat)
    requires t.Valid() && t.Attempt(name).issued.None?
    requires r < CAPACITY && !t.excluded[r] && t.rows[r].inflight == 0
    ensures promised < CAPACITY && Promised(t.Attempt(name).table, promised, t.allocations)
    ensures t.quarantine > 0
  {
    AttemptRefusedExactlyWhen(t, name);
    assert t.Attempt(name).table == t.EvictLru();
    match t.FindLru()
    case Some(v) => promised := v;
    case None =>
      assert !t.Evictable(r) && !t.Open(r);
      assert t.rows[r].usedOnce ==> t.Resting(r);
      promised := r;
  }

  /** A refusal while some row is in circulation and unpinned leaves a promised row behind. */
  lemma RefusalPromisesARow(t: Table, call: Call, r: nat) returns (promised: nat)
    requires t.Valid() && Refused(t, call)
    requires r < CAPACITY && !t.excluded[r] && t.rows[r].inflight == 0
    ensures promised < CAPACITY && Promised(Step(t, call), promised, Step(t, call).allocations)
    ensures t.quarantine > 0
  {
    TickedKeepsValid(t);
    promised := RefusedAttemptPromises(t.Ticked(), call.name, r);
  }

  /** The promise survives every call that neither serves a new name nor excludes an address. */
  lemma PromiseIsKept(t: Table, call: Call, r: nat, since: nat)
    requires r < CAPACITY && Promised(t, r, since)
    requires !Served(t, call) && !call.ExcludeCall?
    ensures Promised(Step(t, call), r, since)
  {
    if call.AllocCall? && t.NewName(call.name) {
      AttemptOnRow(t.Ticked(), call.name, r);
    }
  }

  /** A refusal means the ring clock has not reached the promised tick, and moves it by one. */
  lemma RefusalIsEarly(t: Table, call: Call, r: nat, since: nat)
    requires t.Valid() && r < CAPACITY && Promised(t, r, since) && Refused(t, call)
    ensures Step(t, call).allocations == t.allocations + 1 < since + t.quarantine
  {
    RefusedExactlyWhen(t, call.name);
    assert !t.Ticked().Open(r);
  }

  /** Refusals among the first n calls. */
  ghost function Refusals(states: seq<Table>, calls: seq<Call>, n: nat): nat
    requires n <= |calls| && n <= |states|
  {
    if n == 0 then 0
    else Refusals(states, calls, n - 1) + if Refused(states[n - 1], calls[n - 1]) then 1 else 0
  }

  /** No new name is served and no address excluded: what is left of a streak is refusals and bookkeeping. */
  ghost predicate IsDrought(states: seq<Table>, calls: seq<Call>)
    requires |calls| <= |states|
  {
    forall k {:trigger calls[k]} :: 0 <= k < |calls| ==> !Served(states[k], calls[k]) && !calls[k].ExcludeCall?
  }

  lemma {:induction false} DroughtIsCounted(states: seq<Table>, calls: seq<Call>, r: nat, n: nat)
    requires IsRun(states, calls) && IsDrought(states, calls) && 1 <= n < |states|
    requires r < CAPACITY && Refused(states[0], calls[0])
    requires Promised(states[1], r, states[1].allocations) && states[1].quarantine > 0
    ensures Promised(states[n], r, states[1].allocations)
    ensures Refusals(states, calls, n) <= states[n].allocations - states[1].allocations + 1
    ensures Refusals(states, calls, n) <= states[0].quarantine
  {
    hide Step, Refused, Served, Promised;
    RunIsValid(states, calls, 1);
    if n == 1 {
      assert Refusals(states, calls, 0) == 0;
    } else {
      var k := n - 1;
      DroughtIsCounted(states, calls, r, k);
      RunIsValid(states, calls, k);
      PromiseIsKept(states[k], calls[k], r, states[1].allocations);
      StepKeepsClocks(states[k], calls[k]);
      if Refused(states[k], calls[k]) {
        RefusalIsEarly(states[k], calls[k], r, states[1].allocations);
      }
    }
  }

  /**
   * Bounded refusal.  A streak of refused new names that starts while some row in
   * circulation is unpinned is no longer than the ring, whatever pins, touches, repeat
   * queries or clock advances are mixed into it.
   */
  lemma RefusalsEndWithinARing(states: seq<Table>, calls: seq<Call>, r: nat)
    requires IsRun(states, calls) && IsDrought(states, calls)
    requires |calls| > 0 && Refused(states[0], calls[0])
    requires r < CAPACITY && !states[0].excluded[r] && states[0].rows[r].inflight == 0
    ensures Refusals(states, calls, |calls|) <= states[0].quarantine
  {
    hide Step;
    RunIsValid(states, calls, 1);
    var promised := RefusalPromisesARow(states[0], calls[0], r);
    DroughtIsCounted(states, calls, promised, |calls|);
  }
}
