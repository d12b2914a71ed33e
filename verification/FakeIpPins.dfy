/**
 * What each call of the fake-IP table moves besides names: pin counts, exclusions and
 * the two clocks, over one call and over unbounded runs.
 */
module FakeIpPins {
  import opened Basics
  import opened FakeIp
  import opened FakeIpRuns

  // ------------------------------------------------------------ pin counts

  /** Connects in flight on an address. */
  function PinsOn(t: Table, fake: Octets): nat {
    match t.OwnedSlot(fake)
    case Some(i) => t.rows[i].inflight
    case None => 0
  }

  /** A pin count n after a call: only pin and unpin of this very address move it, and never below none. */
  function Moved(n: nat, call: Call, fake: Octets): nat {
    if call == PinCall(fake) then n + 1
    else if call == UnpinCall(fake) && n > 0 then n - 1
    else n
  }

  /** A pin count n after calls [lo, hi). */
  function Balance(n: nat, calls: seq<Call>, fake: Octets, lo: nat, hi: nat): nat
    requires lo <= hi <= |calls|
    decreases hi
  {
    if lo == hi then n else Moved(Balance(n, calls, fake, lo, hi - 1), calls[hi - 1], fake)
  }

  lemma OneAddressASlot(a: Octets, b: Octets)
    requires SlotOf(a).Some? && SlotOf(a) == SlotOf(b)
    ensures a == b
  {
    SlotRoundTrip(a, SlotOf(a).value);
    SlotRoundTrip(b, SlotOf(b).value);
  }

  /** While an address keeps its name, a call moves its pin count by pin and unpin alone. */
  lemma PinCountMoves(t: Table, call: Call, fake: Octets)
    requires t.Lookup(fake).Some? && Step(t, call).Lookup(fake) == t.Lookup(fake)
    ensures PinsOn(Step(t, call), fake) == Moved(PinsOn(t, fake), call, fake)
  {
    var i := SlotOf(fake).value;
    match call
    case AllocCall(name) =>
      if t.NewName(name) {
        AttemptOnRow(t.Ticked(), name, i);
      }
    case PinCall(a) => if SlotOf(a) == Some(i) { OneAddressASlot(a, fake); }
    case UnpinCall(a) => if SlotOf(a) == Some(i) { OneAddressASlot(a, fake); }
    case _ =>
  }

  /** An address that starts to answer a name starts with nothing in flight. */
  lemma ClaimStartsUnpinned(t: Table, call: Call, fake: Octets)
    requires Step(t, call).Lookup(fake).Some? && Step(t, call).Lookup(fake) != t.Lookup(fake)
    ensures PinsOn(Step(t, call), fake) == 0
  {
    if call.AllocCall? && t.NewName(call.name) {
      AttemptOnRow(t.Ticked(), call.name, SlotOf(fake).value);
    }
  }

  lemma {:induction false} PinCountFollows(states: seq<Table>, calls: seq<Call>, fake: Octets, i: nat, k: nat)
    requires IsRun(states, calls) && i <= k < |states| && states[i].Lookup(fake).Some?
    requires forall j :: i <= j <= k ==> states[j].Lookup(fake) == states[i].Lookup(fake)
    ensures PinsOn(states[k], fake) == Balance(PinsOn(states[i], fake), calls, fake, i, k)
    decreases k
  {
    hide Step, PinsOn, Moved;
    if i < k {
      PinCountFollows(states, calls, fake, i, k - 1);
      PinCountMoves(states[k - 1], calls[k - 1], fake);
    }
  }

  /**
   * Over any run, an address that call c gave to a name and that still answers it has
   * exactly as many connects in flight as it was pinned less what was unpinned since,
   * whatever touches, repeat queries, evictions and exclusions of others came between.
   */
  lemma PinCountIsExact(states: seq<Table>, calls: seq<Call>, fake: Octets, c: nat, k: nat)
    requires IsRun(states, calls) && c < k < |states|
    requires states[c + 1].Lookup(fake).Some? && states[c + 1].Lookup(fake) != states[c].Lookup(fake)
    requires forall j :: c < j <= k ==> states[j].Lookup(fake) == states[c + 1].Lookup(fake)
    ensures PinsOn(states[k], fake) == Balance(0, calls, fake, c + 1, k)
  {
    hide Step, PinsOn, Table.Lookup;
    ClaimStartsUnpinned(states[c], calls[c], fake);
    PinCountFollows(states, calls, fake, c + 1, k);
  }

  lemma PinnedStepKeepsName(t: Table, call: Call, fake: Octets)
    requires t.Lookup(fake).Some? && PinsOn(t, fake) > 0 && call != ExcludeCall(fake)
    ensures Step(t, call).Lookup(fake) == t.Lookup(fake)
  {
    PinnedLeavesOnlyByExclusion(t, call, fake);
  }

  /**
   * Over any run, an address whose pins are never all taken back keeps its name, unless
   * it is itself excluded: a name with a connect in flight is never evicted.
   */
  lemma {:induction false} PinnedKeepsItsName(states: seq<Table>, calls: seq<Call>, fake: Octets, i: nat, k: nat)
    requires IsRun(states, calls) && i <= k < |states| && states[i].Lookup(fake).Some?
    requires forall j {:trigger calls[j]} :: i <= j < k ==>
               calls[j] != ExcludeCall(fake) && Balance(PinsOn(states[i], fake), calls, fake, i, j) > 0
    ensures states[k].Lookup(fake) == states[i].Lookup(fake)
    ensures PinsOn(states[k], fake) == Balance(PinsOn(states[i], fake), calls, fake, i, k)
    decreases k
  {
    hide Step, PinsOn, Moved;
    if i < k {
      var p := k - 1;
      PinnedKeepsItsName(states, calls, fake, i, p);
      assert calls[p] != ExcludeCall(fake);
      PinnedStepKeepsName(states[p], calls[p], fake);
      PinCountMoves(states[p], calls[p], fake);
    }
  }

  // ------------------------------------------------------------ exclusion

  /** An exclusion takes exactly its own row out of circulation, held, resting or never used; no other call does. */
  lemma ExclusionsMove(t: Table, call: Call, r: nat)
    requires r < CAPACITY
    ensures Step(t, call).excluded[r] <==> t.excluded[r] || (call.ExcludeCall? && SlotOf(call.addr) == Some(r))
  {
    if call.AllocCall? && t.NewName(call.name) {
      AttemptOnRow(t.Ticked(), call.name, r);
    }
  }

  lemma {:induction false} ExcludedStaysExcluded(states: seq<Table>, calls: seq<Call>, r: nat, i: nat, k: nat)
    requires IsRun(states, calls) && i <= k < |states| && r < CAPACITY && states[i].excluded[r]
    ensures states[k].excluded[r]
    decreases k
  {
    hide Step;
    if i < k {
      ExcludedStaysExcluded(states, calls, r, i, k - 1);
      ExclusionsMove(states[k - 1], calls[k - 1], r);
    }
  }

  /**
   * Over any run, an excluded address answers no name ever again and is never issued,
   * whether it held a name, was resting or had never been used.
   */
  lemma ExcludedForever(states: seq<Table>, calls: seq<Call>, fake: Octets, i: nat, k: nat)
    requires IsRun(states, calls) && i < k < |states|
    requires calls[i] == ExcludeCall(fake) && SlotOf(fake).Some?
    ensures states[k].Lookup(fake) == None
    ensures forall name :: states[k].Alloc(name).issued != Some(fake)
  {
    hide Step;
    var r := SlotOf(fake).value;
    ExclusionsMove(states[i], calls[i], r);
    ExcludedStaysExcluded(states, calls, r, i + 1, k);
    RunIsValid(states, calls, k);
    forall name ensures states[k].Alloc(name).issued != Some(fake) {
      IssuedIsInCirculation(states[k], name);
    }
  }

  lemma IssuedIsInCirculation(t: Table, name: string)
    requires t.NamesOk()
    ensures var issued := t.Alloc(name).issued;
            issued.Some? ==> SlotOf(issued.value).Some? && !t.excluded[SlotOf(issued.value).value]
  {
    if t.Alloc(name).issued.Some? {
      var i := if !t.NewName(name) then t.FindName(name).value
               else if t.Ticked().FindFree().Some? then t.Ticked().FindFree().value
               else t.Ticked().EvictLru().FindFree().value;
      SlotRoundTrip(FakeIpAt(i), i);
    }
  }

  // ------------------------------------------------------------ the clocks

  /** The LRU clock counts attempts, repeat queries and touches that found a row. */
  predicate Warms(t: Table, call: Call) {
    (call.AllocCall? && call.name != "") || (call.TouchCall? && t.Lookup(call.addr).Some?)
  }

  /**
   * The ring clock moves by one for every new name asked for, served or refused, and by
   * what progress reports; the LRU clock by one for every use.  Nothing else moves them.
   */
  lemma ClocksMove(t: Table, call: Call)
    ensures Step(t, call).allocations
         == t.allocations + (if call.ProgressCall? then call.ticks
                             else if call.AllocCall? && t.NewName(call.name) then 1 else 0)
    ensures Step(t, call).touch == t.touch + if Warms(t, call) then 1 else 0
  {
    if call.AllocCall? && t.NewName(call.name) {
      AttemptOnRow(t.Ticked(), call.name, 0);
    }
  }

  /** A new table has its ring length and can issue every address but the one excluded, at once. */
  lemma FreshIssuesEverything(quarantine: nat, a: Octets, r: nat)
    requires r < CAPACITY
    ensures var t := Fresh(quarantine).Exclude(a);
            && t.quarantine == quarantine && t.allocations == t.touch == 0
            && (t.Open(r) <==> SlotOf(a) != Some(r))
            && t.Capacity() == 254 - if SlotOf(a).Some? then 1 else 0
  {
  }
}
