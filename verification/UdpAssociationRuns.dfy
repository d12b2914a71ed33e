/** Associations over unbounded runs: references are never reborn, and nothing is handed back twice or lost. */
module UdpAssociationRuns {
  import opened Basics
  import opened UdpAssociations

  /** A run: any well-formed table followed by any calls, one state per call boundary. */
  ghost predicate IsRun(states: seq<Table>, calls: seq<Call>) {
    && |states| == |calls| + 1
    && states[0].Valid()
    && forall k {:trigger calls[k]} :: 0 <= k < |calls| ==> states[k + 1] == Perform(states[k], calls[k]).table
  }

  lemma {:induction false} RunIsValid(states: seq<Table>, calls: seq<Call>, k: nat)
    requires IsRun(states, calls) && k < |states|
    ensures states[k].Valid()
  {
    if k > 0 {
      RunIsValid(states, calls, k - 1);
      CallKeepsValid(states[k - 1], calls[k - 1]);
    }
  }

  // ------------------------------------------------------------ one call, one reference

  /** The call created the association ref names. */
  ghost predicate Creates(t: Table, call: Call, ref: Ref) {
    !t.Resolves(ref) && Perform(t, call).table.Resolves(ref)
  }

  ghost predicate CreatesOne(t: Table, call: Call) {
    exists ref :: Creates(t, call, ref)
  }

  /** The call ended the association ref names. */
  ghost predicate Ends(t: Table, call: Call, ref: Ref) {
    t.Resolves(ref) && !Perform(t, call).table.Resolves(ref)
  }

  /** A generation this slot has already seen. */
  ghost predicate Issued(t: Table, ref: Ref) {
    ref.slot < ASSOCIATION_MAX && ref.generation <= t.rows[ref.slot].generation
  }

  /** Only open creates, it answers the reference it created, and that generation was never issued before. */
  lemma CreationIsFresh(t: Table, call: Call, ref: Ref)
    requires Creates(t, call, ref)
    ensures call.OpenCall? && Perform(t, call).ref == ref && !Issued(t, ref)
    ensures Perform(t, call).table.Get(ref) == Some(Association(call.control, call.relay, call.bound, 0, call.tick))
  {
  }

  /** Generations are never rewound. */
  lemma IssuedStaysIssued(t: Table, call: Call, ref: Ref)
    requires Issued(t, ref) || Perform(t, call).table.Resolves(ref)
    ensures Issued(Perform(t, call).table, ref)
  {
  }

  /** Only release and reap_idle end an association, and they hand back the record of the one they end. */
  lemma EndingHandsBack(t: Table, call: Call, ref: Ref)
    requires Ends(t, call, ref)
    ensures call == ReleaseCall(ref, call.tick) || call.ReapCall?
    ensures t.rows[ref.slot].state.(refcount := 0) in Perform(t, call).handedBack
    ensures call.ReleaseCall? ==> t.rows[ref.slot].state.refcount <= 1 && |Perform(t, call).handedBack| == 1
    ensures call.ReapCall? ==> t.rows[ref.slot].state.refcount == 0
  {
    if call.ReapCall? {
      IdleRecordsExact(t.rows, call.tick, ASSOCIATION_MAX, t.rows[ref.slot].state);
    }
  }

  /** While it lives an association keeps its sockets and its bound address. */
  lemma LiveKeepsIdentity(t: Table, call: Call, ref: Ref)
    requires t.Resolves(ref) && Perform(t, call).table.Resolves(ref)
    ensures Perform(t, call).table.Get(ref).value.(refcount := 0, lastUse := 0)
         == t.Get(ref).value.(refcount := 0, lastUse := 0)
  {
  }

  // ------------------------------------------------------------ lifetimes

  /** A generation once issued and gone never resolves again. */
  lemma {:induction false} DeadStaysDead(states: seq<Table>, calls: seq<Call>, ref: Ref, i: nat, k: nat)
    requires IsRun(states, calls) && i <= k < |states|
    requires Issued(states[i], ref) && !states[i].Resolves(ref)
    ensures Issued(states[k], ref) && !states[k].Resolves(ref)
    decreases k
  {
    if i != k {
      DeadStaysDead(states, calls, ref, i, k - 1);
      hide Perform;
      IssuedStaysIssued(states[k - 1], calls[k - 1], ref);
      if Creates(states[k - 1], calls[k - 1], ref) {
        CreationIsFresh(states[k - 1], calls[k - 1], ref);
      }
    }
  }

  lemma {:induction false} ResolvedIsIssued(states: seq<Table>, calls: seq<Call>, ref: Ref, i: nat, k: nat)
    requires IsRun(states, calls) && i <= k < |states| && Issued(states[i], ref)
    ensures Issued(states[k], ref)
    decreases k
  {
    if i != k {
      ResolvedIsIssued(states, calls, ref, i, k - 1);
      IssuedStaysIssued(states[k - 1], calls[k - 1], ref);
    }
  }

  /** A reference that resolves now resolved ever since it was created. */
  lemma AliveWasAlive(states: seq<Table>, calls: seq<Call>, ref: Ref, i: nat, p: nat)
    requires IsRun(states, calls) && i <= p < |calls| && Issued(states[i], ref) && states[p + 1].Resolves(ref)
    ensures states[p].Resolves(ref)
  {
    hide Perform;
    if !states[p].Resolves(ref) {
      ResolvedIsIssued(states, calls, ref, i, p);
      assert Creates(states[p], calls[p], ref);
      CreationIsFresh(states[p], calls[p], ref);
    }
  }

  /** The identity of an association never changes between two states in which it resolves. */
  lemma {:induction false} ResolvesToTheSame(states: seq<Table>, calls: seq<Call>, ref: Ref, i: nat, k: nat)
    requires IsRun(states, calls) && i <= k < |states|
    requires states[i].Resolves(ref) && states[k].Resolves(ref)
    ensures states[k].Get(ref).value.(refcount := 0, lastUse := 0)
         == states[i].Get(ref).value.(refcount := 0, lastUse := 0)
    decreases k
  {
    hide Perform;
    if i != k {
      var p := k - 1;
      AliveWasAlive(states, calls, ref, i, p);
      ResolvesToTheSame(states, calls, ref, i, p);
      LiveKeepsIdentity(states[p], calls[p], ref);
    }
  }

  /**
   * A reference is good exactly as long as its association: created at call i, it
   * resolves at state k if and only if no call in between ended it.
   */
  lemma ResolvesExactlyWhileAlive(states: seq<Table>, calls: seq<Call>, ref: Ref, i: nat, k: nat)
    requires IsRun(states, calls) && i < k < |states| && Creates(states[i], calls[i], ref)
    ensures states[k].Resolves(ref) <==> forall c {:trigger calls[c]} :: i < c < k ==> !Ends(states[c], calls[c], ref)
  {
    hide Perform;
    if states[k].Resolves(ref) {
      forall c {:trigger calls[c]} | i < c < k ensures !Ends(states[c], calls[c], ref) {
        if Ends(states[c], calls[c], ref) {
          IssuedStaysIssued(states[c], calls[c], ref);
          DeadStaysDead(states, calls, ref, c + 1, k);
        }
      }
    } else {
      var end := EndOf(states, calls, ref, i + 1, k);
    }
  }

  /** The call that ended an association which resolved at state i and no longer does at state k. */
  lemma {:induction false} EndOf(states: seq<Table>, calls: seq<Call>, ref: Ref, i: nat, k: nat) returns (end: nat)
    requires IsRun(states, calls) && i <= k < |states|
    requires states[i].Resolves(ref) && !states[k].Resolves(ref)
    ensures i <= end < k && Ends(states[end], calls[end], ref)
    decreases k
  {
    hide Perform;
    var p := k - 1;
    if states[p].Resolves(ref) {
      end := p;
    } else {
      end := EndOf(states, calls, ref, i, p);
    }
  }

  /** ABA safety: an association ends at most once, and its reference is never issued again. */
  lemma EndsOnceCreatedOnce(states: seq<Table>, calls: seq<Call>, ref: Ref, i: nat, c: nat)
    requires IsRun(states, calls) && i < c < |calls| && Ends(states[i], calls[i], ref)
    ensures !Ends(states[c], calls[c], ref) && !Creates(states[c], calls[c], ref)
  {
    hide Perform;
    IssuedStaysIssued(states[i], calls[i], ref);
    DeadStaysDead(states, calls, ref, i + 1, c);
    if Creates(states[c], calls[c], ref) {
      CreationIsFresh(states[c], calls[c], ref);
    }
  }

  // ------------------------------------------------------------ conservation

  /** Associations created by the first n calls. */
  ghost function CreatedBy(states: seq<Table>, calls: seq<Call>, n: nat): nat
    requires n <= |calls| && n <= |states|
  {
    if n == 0 then 0
    else CreatedBy(states, calls, n - 1) + if CreatesOne(states[n - 1], calls[n - 1]) then 1 else 0
  }

  /** Records handed back by the first n calls. */
  ghost function HandedBackBy(states: seq<Table>, calls: seq<Call>, n: nat): nat
    requires n <= |calls| && n <= |states|
  {
    if n == 0 then 0
    else HandedBackBy(states, calls, n - 1) + |Perform(states[n - 1], calls[n - 1]).handedBack|
  }

  lemma CallBalances(t: Table, call: Call)
    ensures Perform(t, call).table.live + |Perform(t, call).handedBack|
         == t.live + if CreatesOne(t, call) then 1 else 0
  {
    var answer := Perform(t, call);
    if call.OpenCall? && t.RowOfControl(call.control, 0).None? && t.FreeRow(0).Some? {
      assert Creates(t, call, answer.ref);
    } else if ref :| Creates(t, call, ref) {
      CreationIsFresh(t, call, ref);
    }
  }

  /** created == live + handed back, over any run from the empty table. */
  lemma {:induction false} NothingIsLost(states: seq<Table>, calls: seq<Call>, n: nat)
    requires IsRun(states, calls) && n < |states|
    ensures states[0].live + CreatedBy(states, calls, n) == states[n].live + HandedBackBy(states, calls, n)
    ensures states[0] == EMPTY ==>
              CreatedBy(states, calls, n) == |states[n].UsedRows()| + HandedBackBy(states, calls, n)
  {
    hide Perform;
    RunIsValid(states, calls, n);
    if n > 0 {
      NothingIsLost(states, calls, n - 1);
      CallBalances(states[n - 1], calls[n - 1]);
    }
  }

  // ------------------------------------------------------------ reference counts

  /** Acquires less releases of ref that calls [i, k) performed while it resolved. */
  ghost function Holds(states: seq<Table>, calls: seq<Call>, ref: Ref, i: nat, k: nat): int
    requires i <= k <= |calls| && k <= |states|
    decreases k
  {
    if i == k then 0
    else
      Holds(states, calls, ref, i, k - 1) +
      (if !states[k - 1].Resolves(ref) then 0
       else if calls[k - 1] == AcquireCall(ref) then 1
       else if calls[k - 1].ReleaseCall? && calls[k - 1].ref == ref then -1
       else 0)
  }

  lemma CallMovesRefcount(t: Table, call: Call, ref: Ref)
    requires t.Resolves(ref) && Perform(t, call).table.Resolves(ref)
    ensures Perform(t, call).table.Get(ref).value.refcount
         == t.Get(ref).value.refcount
          + if call == AcquireCall(ref) then 1 else if call.ReleaseCall? && call.ref == ref then -1 else 0
  {
  }

  /** While an association lives, its count is what was acquired less what was released since it was created. */
  lemma {:induction false} RefcountIsExact(states: seq<Table>, calls: seq<Call>, ref: Ref, i: nat, k: nat)
    requires IsRun(states, calls) && i < k < |states|
    requires Creates(states[i], calls[i], ref) && states[k].Resolves(ref)
    ensures states[k].Get(ref).value.refcount == Holds(states, calls, ref, i + 1, k)
    decreases k
  {
    hide Perform;
    CreationIsFresh(states[i], calls[i], ref);
    var p := k - 1;
    if i < p {
      IssuedStaysIssued(states[i], calls[i], ref);
      AliveWasAlive(states, calls, ref, i + 1, p);
      RefcountIsExact(states, calls, ref, i, p);
      CallMovesRefcount(states[p], calls[p], ref);
    }
  }

  // ------------------------------------------------------------ opening twice, and time

  /** In every state of every run a control socket stands behind at most one live reference. */
  lemma ControlSocketsAreUnique(states: seq<Table>, calls: seq<Call>, k: nat, a: Ref, b: Ref)
    requires IsRun(states, calls) && k < |states|
    requires states[k].Resolves(a) && states[k].Resolves(b)
    requires states[k].Get(a).value.control == states[k].Get(b).value.control
    ensures a == b
  {
    RunIsValid(states, calls, k);
  }

  /** Opening a control socket again answers the reference it already has, and changes nothing but its age. */
  lemma OpeningAgainIsTheSame(t: Table, ref: Ref, relay: Handle, bound: Endpoint, tick: nat)
    requires t.Valid() && t.Resolves(ref)
    ensures var again := t.Open(t.Get(ref).value.control, relay, bound, tick);
            again.ref == ref && again.table == t.Touch(ref, tick).table
  {
    var i := t.RowOfControl(t.Get(ref).value.control, 0);
    assert i == Some(ref.slot);
  }

  /**
   * An association touched at a tick survives every reap before the idle limit, and the first one
   * at it unless it is held.
   */
  lemma TouchBuysTheIdleLimit(t: Table, ref: Ref, tick: nat, later: nat)
    requires t.Resolves(ref)
    ensures t.Touch(ref, tick).table.ReapIdle(later).table.Resolves(ref)
       <==> later < tick + IDLE_LIMIT_TICKS || t.Get(ref).value.refcount > 0
  {
  }

  // ------------------------------------------------------------ exactly when

  /** The control socket already has a live association. */
  ghost predicate ControlIsLive(t: Table, control: Handle) {
    exists ref :: t.Resolves(ref) && t.Get(ref).value.control == control
  }

  ghost predicate HasFreeRow(t: Table) {
    exists i :: 0 <= i < 32 && !t.rows[i].used
  }

  /**
   * Open creates an association exactly when its control socket has none and one of the
   * 32 rows is free; it fails exactly when its control socket has none and no row is free;
   * and a reference it answers without failing resolves to that control socket.
   */
  lemma OpenCreatesExactlyWhen(t: Table, call: Call)
    requires call.OpenCall?
    ensures var a, live := Perform(t, call), ControlIsLive(t, call.control);
            && (CreatesOne(t, call) <==> !live && HasFreeRow(t))
            && (a.ok <==> live || HasFreeRow(t))
            && (a.ok ==> a.table.Resolves(a.ref) && a.table.Get(a.ref).value.control == call.control)
            && (!a.ok ==> a.table == t && !a.table.Resolves(a.ref))
  {
    var a, at := Perform(t, call), t.RowOfControl(call.control, 0);
    if at.Some? {
      assert t.Resolves(a.ref) && t.Get(a.ref).value.control == call.control;
      assert forall ref :: Perform(t, call).table.Resolves(ref) ==> t.Resolves(ref);
    } else if t.FreeRow(0).Some? {
      assert Creates(t, call, a.ref);
    }
  }

  /**
   * An association ends exactly when its last hold is released, or a reap finds it unheld
   * and untouched for 30 ticks; releasing one that was never held ends it too.
   */
  lemma EndsExactlyWhen(t: Table, call: Call, ref: Ref)
    requires t.Resolves(ref)
    ensures var held, age := t.Get(ref).value.refcount, t.Get(ref).value.lastUse;
            Ends(t, call, ref) <==> || (call.ReleaseCall? && call.ref == ref && held <= 1)
                                    || (call.ReapCall? && held == 0 && call.tick >= age + 30)
  {
  }

  /** The call touches ref: by name, by release, or by opening its control socket again. */
  predicate Touches(t: Table, call: Call, ref: Ref)
    requires t.Resolves(ref)
  {
    match call
    case OpenCall(control, _, _, _) => t.Get(ref).value.control == control
    case TouchCall(r, _) => r == ref
    case ReleaseCall(r, _) => r == ref
    case _ => false
  }

  /** A live association's age is renewed by a touch, a release or a repeated open of its own, and by nothing else. */
  lemma AgeMovesExactlyWhen(t: Table, call: Call, ref: Ref)
    requires t.Valid() && t.Resolves(ref) && Perform(t, call).table.Resolves(ref)
    ensures Perform(t, call).table.Get(ref).value.lastUse
         == if Touches(t, call, ref) then call.tick else t.Get(ref).value.lastUse
  {
  }

  /**
   * A stale or foreign reference is refused by touch, acquire and release alike, and the
   * refused call changes nothing and hands nothing back; a good one never is.
   */
  lemma StaleReferencesAreRefused(t: Table, call: Call)
    requires call.TouchCall? || call.AcquireCall? || call.ReleaseCall?
    ensures var a := Perform(t, call);
            && (a.ok <==> t.Resolves(call.ref))
            && (!a.ok ==> a.table == t && a.handedBack == [])
            && (a.handedBack != [] <==> Ends(t, call, call.ref))
  {
  }
}
