/**
 * The fake-IP table as what it abstracts: a one-to-one map between names and
 * addresses, and a list of its rows from least to most recently used.
 */
module FakeIpRecency {
  import opened Basics
  import opened FakeIp
  import opened FakeIpRuns

  // ------------------------------------------------------------ names and addresses

  /** No two addresses answer the same name. */
  lemma LookupIsInjective(t: Table, a: Octets, b: Octets)
    requires t.Valid() && t.Lookup(a).Some? && t.Lookup(a) == t.Lookup(b)
    ensures a == b
  {
    SlotRoundTrip(a, SlotOf(a).value);
    SlotRoundTrip(b, SlotOf(b).value);
  }

  lemma HeldNameIsFound(t: Table, i: nat)
    requires t.NamesOk() && i < CAPACITY && t.Live(i)
    ensures t.FindName(t.rows[i].name) == Some(i)
  {
  }

  lemma WarmMovesNothing(t: Table, i: nat, b: Octets)
    requires i < CAPACITY
    ensures t.Warm(i).Lookup(b) == t.Lookup(b)
  {
  }

  /** Asking again for a name that is held returns the address it already has and moves nothing. */
  lemma AllocIsStable(t: Table, a: Octets, b: Octets)
    requires t.Valid() && t.Lookup(a).Some?
    ensures t.Alloc(t.Lookup(a).value).issued == Some(a)
    ensures t.Alloc(t.Lookup(a).value).table.Lookup(b) == t.Lookup(b)
  {
    var i := SlotOf(a).value;
    SlotRoundTrip(a, i);
    HeldNameIsFound(t, i);
    WarmMovesNothing(t, i, b);
    hide Table.Attempt, Table.FindName, Table.Valid;
    assert t.Alloc(t.rows[i].name) == Allocated(t.Warm(i), Some(a));
  }

  lemma AttemptAnswers(t: Table, name: string)
    requires name != "" && t.Attempt(name).issued.Some?
    ensures t.Attempt(name).table.Lookup(t.Attempt(name).issued.value) == Some(name)
  {
    var i := if t.FindFree().Some? then t.FindFree().value else t.EvictLru().FindFree().value;
    assert t.Attempt(name).issued == Some(FakeIpAt(i));
    SlotRoundTrip(FakeIpAt(i), i);
  }

  /** The address alloc issues is the one address that answers the name from then on. */
  lemma AllocAnswersTheName(t: Table, name: string, a: Octets)
    requires t.Valid() && t.Alloc(name).issued.Some?
    ensures t.Alloc(name).issued == Some(a) <==> t.Alloc(name).table.Lookup(a) == Some(name)
  {
    var issued := t.Alloc(name).issued.value;
    if t.NewName(name) {
      AttemptAnswers(t.Ticked(), name);
    } else {
      SlotRoundTrip(issued, t.FindName(name).value);
    }
    AllocKeepsValid(t, name);
    if t.Alloc(name).table.Lookup(a) == Some(name) {
      LookupIsInjective(t.Alloc(name).table, a, issued);
    }
  }

  // ------------------------------------------------------------ recency

  /** l lists exactly the live rows, least recently used first. */
  ghost predicate Recency(t: Table, l: seq<nat>) {
    && (forall k :: 0 <= k < |l| ==> l[k] < CAPACITY && t.Live(l[k]))
    && (forall i: nat :: i < CAPACITY && t.Live(i) ==> i in l)
    && Ascends(l, t.rows)
  }

  ghost predicate Ascends(l: seq<nat>, rows: Rows)
    requires forall k :: 0 <= k < |l| ==> l[k] < CAPACITY
  {
    forall p, q :: 0 <= p < q < |l| ==> rows[l[p]].lastUse < rows[l[q]].lastUse
  }

  /** The first unpinned row of l. */
  function FirstUnpinned(t: Table, l: seq<nat>): (r: Option<nat>)
    requires forall k :: 0 <= k < |l| ==> l[k] < CAPACITY
    ensures r.Some? ==> exists k :: 0 <= k < |l| && l[k] == r.value && t.rows[l[k]].inflight == 0
                                    && forall j :: 0 <= j < k ==> t.rows[l[j]].inflight > 0
    ensures r.None? ==> forall k :: 0 <= k < |l| ==> t.rows[l[k]].inflight > 0
  {
    if l == [] then None
    else if t.rows[l[0]].inflight == 0 then Some(l[0])
    else
      var r := FirstUnpinned(t, l[1..]);
      assert r.Some? ==> exists k :: 1 <= k < |l| && l[k] == r.value && t.rows[l[k]].inflight == 0
                                    && forall j :: 0 <= j < k ==> t.rows[l[j]].inflight > 0 by {
        if r.Some? {
          var k :| 0 <= k < |l[1..]| && l[1..][k] == r.value && t.rows[l[1..][k]].inflight == 0
                   && forall j :: 0 <= j < k ==> t.rows[l[1..][j]].inflight > 0;
          assert l[k + 1] == r.value;
          forall j | 0 <= j < k + 1 ensures t.rows[l[j]].inflight > 0 {
            assert j > 0 ==> l[j] == l[1..][j - 1];
          }
        }
      }
      assert r.None? ==> forall k :: 1 <= k < |l| ==> l[k] == l[1..][k - 1];
      r
  }

  /** Eviction by minimal last_use is eviction of the front of the recency list, pinned rows passed over. */
  lemma VictimIsFirstUnpinned(t: Table, l: seq<nat>)
    requires Recency(t, l)
    ensures t.FindLru() == FirstUnpinned(t, l)
  {
    var first := FirstUnpinned(t, l);
    if first.None? {
      forall i: nat | i < CAPACITY ensures !t.Evictable(i) {
        if t.Live(i) {
          assert i in l;
        }
      }
    } else {
      var k :| 0 <= k < |l| && l[k] == first.value && t.rows[l[k]].inflight == 0
               && forall j :: 0 <= j < k ==> t.rows[l[j]].inflight > 0;
      forall i: nat | i < CAPACITY && t.Evictable(i) && i != l[k]
        ensures t.rows[l[k]].lastUse < t.rows[i].lastUse
      {
        var at :| 0 <= at < |l| && l[at] == i;
      }
      OldestIsTheVictim(t, l[k]);
    }
  }

  lemma OldestIsTheVictim(t: Table, v: nat)
    requires v < CAPACITY && t.Evictable(v)
    requires forall i :: 0 <= i < CAPACITY && t.Evictable(i) && i != v ==> t.rows[v].lastUse < t.rows[i].lastUse
    ensures t.FindLru() == Some(v)
  {
  }

  /** The list after the row `leaves` is retired and the row `uses` becomes the most recent. */
  function Shuffled(l: seq<nat>, leaves: Option<nat>, uses: Option<nat>): seq<nat> {
    var rest := if leaves.Some? then Without<nat>(l, leaves.value) else l;
    if uses.Some? then Without<nat>(rest, uses.value) + [uses.value] else rest
  }

  /** The row a call makes most recent: the one it issues, or the one it is told about. */
  function Uses(t: Table, call: Call): Option<nat> {
    match call
    case AllocCall(name) =>
      (match t.Alloc(name).issued
       case Some(a) => SlotOf(a)
       case None => None)
    case TouchCall(a) => t.OwnedSlot(a)
    case _ => None
  }

  /** The row a call retires: the front of the list when an attempt starves, the row of an excluded address. */
  function Leaves(t: Table, l: seq<nat>, call: Call): Option<nat>
    requires forall k :: 0 <= k < |l| ==> l[k] < CAPACITY
  {
    match call
    case AllocCall(name) => if t.NewName(name) && t.Ticked().FindFree().None? then FirstUnpinned(t, l) else None
    case ExcludeCall(a) => t.OwnedSlot(a)
    case _ => None
  }

  lemma OlderInFront(r: nat, l: seq<nat>, rows: Rows)
    requires r < CAPACITY && (forall k :: 0 <= k < |l| ==> l[k] < CAPACITY) && Ascends(l, rows)
    requires forall k :: 0 <= k < |l| ==> rows[r].lastUse < rows[l[k]].lastUse
    ensures (forall k :: 0 <= k < |[r] + l| ==> ([r] + l)[k] < CAPACITY) && Ascends([r] + l, rows)
  {
  }

  lemma {:induction false} WithoutAscends(l: seq<nat>, i: nat, rows: Rows, later: Rows)
    requires (forall k :: 0 <= k < |l| ==> l[k] < CAPACITY) && Ascends(l, rows)
    requires forall k :: 0 <= k < CAPACITY && k != i ==> later[k].lastUse == rows[k].lastUse
    ensures var out := Without<nat>(l, i); (forall k :: 0 <= k < |out| ==> out[k] < CAPACITY) && Ascends(out, later)
  {
    if l != [] {
      var rest, out := l[1..], Without<nat>(l[1..], i);
      assert forall k :: 0 <= k < |rest| ==> rest[k] == l[k + 1];
      WithoutAscends(rest, i, rows, later);
      if l[0] != i {
        forall q | 0 <= q < |out| ensures later[l[0]].lastUse < later[out[q]].lastUse {
          assert out[q] in rest;
        }
        OlderInFront(l[0], out, later);
      }
    }
  }

  lemma RetireShuffles(t: Table, l: seq<nat>, i: nat)
    requires Recency(t, l) && i < CAPACITY && t.Live(i)
    ensures Recency(t.Retire(i), Without<nat>(l, i))
  {
    WithoutAscends(l, i, t.rows, t.Retire(i).rows);
  }

  lemma YoungerBehind(l: seq<nat>, i: nat, rows: Rows)
    requires i < CAPACITY && (forall k :: 0 <= k < |l| ==> l[k] < CAPACITY) && Ascends(l, rows)
    requires forall k :: 0 <= k < |l| ==> rows[l[k]].lastUse < rows[i].lastUse
    ensures (forall k :: 0 <= k < |l + [i]| ==> (l + [i])[k] < CAPACITY) && Ascends(l + [i], rows)
  {
  }

  /** Any row written with the newest touch goes to the back. */
  lemma UseShuffles(t: Table, l: seq<nat>, later: Table, i: nat)
    requires Recency(t, l) && i < CAPACITY && later.Live(i)
    requires forall k :: 0 <= k < CAPACITY && k != i ==> later.rows[k] == t.rows[k]
    requires forall k :: 0 <= k < CAPACITY && k != i && t.Live(k) ==> t.rows[k].lastUse < later.rows[i].lastUse
    ensures Recency(later, Without<nat>(l, i) + [i])
  {
    WithoutAscends(l, i, t.rows, later.rows);
    var rest := Without<nat>(l, i);
    hide Ascends;
    forall k | 0 <= k < |rest| ensures later.Live(rest[k]) && later.rows[rest[k]].lastUse < later.rows[i].lastUse {
      assert rest[k] in l && rest[k] != i;
    }
    YoungerBehind(rest, i, later.rows);
    forall k: nat | k < CAPACITY && later.Live(k) ensures k in rest + [i] {
      if k != i {
        assert k in l;
      }
    }
  }

  lemma IssueShuffles(t: Table, l: seq<nat>, name: string)
    requires t.TouchAhead() && Recency(t, l) && name != "" && t.FindFree().Some?
    ensures Recency(t.IssueFree(name).value.table, Shuffled(l, None, SlotOf(t.IssueFree(name).value.issued.value)))
  {
    var i := t.FindFree().value;
    SlotRoundTrip(FakeIpAt(i), i);
    UseShuffles(t, l, t.Claim(i, name), i);
  }

  /** A new-name attempt shuffles the list: perhaps one row out at the front, perhaps one in at the back. */
  lemma AttemptShuffles(t: Table, l: seq<nat>, name: string)
    requires t.TouchAhead() && Recency(t, l) && name != ""
    ensures var leaves := if t.FindFree().None? then FirstUnpinned(t, l) else None;
            var uses := if t.Attempt(name).issued.Some? then SlotOf(t.Attempt(name).issued.value) else None;
            Recency(t.Attempt(name).table, Shuffled(l, leaves, uses))
  {
    if t.FindFree().Some? {
      IssueShuffles(t, l, name);
    } else {
      VictimIsFirstUnpinned(t, l);
      var rest := Shuffled(l, t.FindLru(), None);
      if t.FindLru().Some? {
        RetireShuffles(t, l, t.FindLru().value);
      }
      assert Recency(t.EvictLru(), rest);
      if t.EvictLru().FindFree().Some? {
        IssueShuffles(t.EvictLru(), rest, name);
      }
    }
  }

  lemma AllocShuffles(t: Table, l: seq<nat>, name: string)
    requires t.Valid() && Recency(t, l)
    ensures Recency(t.Alloc(name).table, Shuffled(l, Leaves(t, l, AllocCall(name)), Uses(t, AllocCall(name))))
  {
    if t.NewName(name) {
      TickedKeepsValid(t);
      assert Recency(t.Ticked(), l);
      FirstUnpinnedIgnoresClocks(t, t.Ticked(), l);
      AttemptShuffles(t.Ticked(), l, name);
    } else if name != "" {
      WarmShuffles(t, l, t.FindName(name).value);
    }
  }

  lemma WarmShuffles(t: Table, l: seq<nat>, i: nat)
    requires t.Valid() && Recency(t, l) && i < CAPACITY && t.Live(i)
    ensures Recency(t.Warm(i), Shuffled(l, None, Some(i))) && SlotOf(FakeIpAt(i)) == Some(i)
  {
    SlotRoundTrip(FakeIpAt(i), i);
    UseShuffles(t, l, t.Warm(i), i);
  }

  lemma ExcludeShuffles(t: Table, l: seq<nat>, a: Octets)
    requires t.Valid() && Recency(t, l)
    ensures Recency(t.Exclude(a), Shuffled(l, t.OwnedSlot(a), None))
  {
    if t.OwnedSlot(a).Some? {
      var i := t.OwnedSlot(a).value;
      RetireShuffles(t, l, i);
      assert t.Exclude(a).rows == t.Retire(i).rows;
    }
  }

  lemma TouchShuffles(t: Table, l: seq<nat>, a: Octets)
    requires t.Valid() && Recency(t, l)
    ensures Recency(t.NoteTouched(a), Shuffled(l, None, t.OwnedSlot(a)))
  {
    if t.OwnedSlot(a).Some? {
      WarmShuffles(t, l, t.OwnedSlot(a).value);
    }
  }

  /** Pins and the ring clock have no say in recency. */
  lemma PinsKeepRecency(t: Table, l: seq<nat>, a: Octets, ticks: nat)
    requires Recency(t, l)
    ensures Recency(t.Pin(a), l) && Recency(t.Unpin(a), l) && Recency(t.NoteProgress(ticks), l)
  {
  }

  lemma RecencyOfStep(t: Table, l: seq<nat>, call: Call)
    requires t.Valid() && Recency(t, l)
    ensures Recency(Step(t, call), Shuffled(l, Leaves(t, l, call), Uses(t, call)))
  {
    hide Recency;
    match call
    case AllocCall(name) => AllocShuffles(t, l, name);
    case TouchCall(a) => TouchShuffles(t, l, a);
    case ExcludeCall(a) => ExcludeShuffles(t, l, a);
    case PinCall(a) => PinsKeepRecency(t, l, a, 0);
    case UnpinCall(a) => PinsKeepRecency(t, l, a, 0);
    case ProgressCall(ticks) => PinsKeepRecency(t, l, FakeIpAt(0), ticks);
  }

  lemma {:induction false} FirstUnpinnedIgnoresClocks(t: Table, later: Table, l: seq<nat>)
    requires t.rows == later.rows && forall k :: 0 <= k < |l| ==> l[k] < CAPACITY
    ensures FirstUnpinned(t, l) == FirstUnpinned(later, l)
  {
    if l != [] {
      FirstUnpinnedIgnoresClocks(t, later, l[1..]);
    }
  }

  // ------------------------------------------------------------ the map half

  /** The map the table stands for: the name of every row that holds one. */
  ghost function Held(t: Table): map<nat, string> {
    map i: nat | i < CAPACITY && t.Live(i) :: t.rows[i].name
  }

  /** Lookup reads that map, and no name is in it twice. */
  lemma LookupReadsHeld(t: Table, a: Octets)
    requires t.Valid()
    ensures t.Lookup(a)
         == if SlotOf(a).Some? && SlotOf(a).value in Held(t) then Some(Held(t)[SlotOf(a).value]) else None
    ensures forall i, j :: i in Held(t) && j in Held(t) && Held(t)[i] == Held(t)[j] ==> i == j
  {
  }

  /** The map after the row `leaves` is emptied and `name` is written to the row `uses`. */
  function Renamed(
      names: map<nat, string>, leaves: Option<nat>, uses: Option<nat>, name: Option<string>): map<nat, string>
  {
    var rest := if leaves.Some? then names - {leaves.value} else names;
    if uses.Some? && name.Some? then rest[uses.value := name.value] else rest
  }

  /** Only an alloc writes a name. */
  function Writes(call: Call): Option<string> {
    if call.AllocCall? then Some(call.name) else None
  }

  lemma RetireRenames(t: Table, i: nat)
    requires i < CAPACITY
    ensures Held(t.Retire(i)) == Held(t) - {i}
  {
  }

  lemma IssueRenames(t: Table, name: string)
    requires name != "" && t.FindFree().Some?
    ensures var done := t.IssueFree(name).value;
            Held(done.table) == Renamed(Held(t), None, SlotOf(done.issued.value), Some(name))
  {
    SlotRoundTrip(FakeIpAt(t.FindFree().value), t.FindFree().value);
  }

  /** A new-name attempt empties the first unpinned row if it starves, and writes the name to the row it issues. */
  lemma AttemptRenames(t: Table, l: seq<nat>, name: string)
    requires Recency(t, l) && name != ""
    ensures var leaves := if t.FindFree().None? then FirstUnpinned(t, l) else None;
            var uses := if t.Attempt(name).issued.Some? then SlotOf(t.Attempt(name).issued.value) else None;
            Held(t.Attempt(name).table) == Renamed(Held(t), leaves, uses, Some(name))
  {
    hide Held;
    if t.FindFree().Some? {
      IssueRenames(t, name);
    } else {
      VictimIsFirstUnpinned(t, l);
      if t.FindLru().Some? {
        RetireRenames(t, t.FindLru().value);
      }
      if t.EvictLru().FindFree().Some? {
        IssueRenames(t.EvictLru(), name);
      }
    }
  }

  lemma ClocksRenameNothing(t: Table, later: Table, l: seq<nat>)
    requires t.rows == later.rows
    ensures Held(later) == Held(t) && (Recency(t, l) ==> Recency(later, l))
  {
  }

  lemma WarmRenamesNothing(t: Table, i: nat)
    requires i < CAPACITY && t.Live(i)
    ensures Held(t.Warm(i)) == Held(t)
    ensures Renamed(Held(t), None, SlotOf(FakeIpAt(i)), Some(t.rows[i].name)) == Held(t)
  {
    SlotRoundTrip(FakeIpAt(i), i);
  }

  lemma PinsRenameNothing(t: Table, a: Octets, ticks: nat)
    ensures Held(t.Pin(a)) == Held(t.Unpin(a)) == Held(t.NoteProgress(ticks)) == Held(t)
  {
  }

  lemma TouchRenamesNothing(t: Table, a: Octets)
    ensures Held(t.NoteTouched(a)) == Held(t)
  {
  }

  lemma AllocRenames(t: Table, l: seq<nat>, name: string)
    requires t.Valid() && Recency(t, l)
    ensures Held(t.Alloc(name).table)
         == Renamed(Held(t), Leaves(t, l, AllocCall(name)), Uses(t, AllocCall(name)), Some(name))
  {
    if t.NewName(name) {
      hide Table.Attempt, Held, FirstUnpinned, Table.FindName, Table.Valid;
      ClocksRenameNothing(t, t.Ticked(), l);
      FirstUnpinnedIgnoresClocks(t, t.Ticked(), l);
      AttemptRenames(t.Ticked(), l, name);
    } else if name != "" {
      WarmRenamesNothing(t, t.FindName(name).value);
    }
  }

  lemma ExcludeRenames(t: Table, a: Octets)
    requires t.NamesOk()
    ensures Held(t.Exclude(a)) == Renamed(Held(t), t.OwnedSlot(a), None, None)
  {
    if t.OwnedSlot(a).Some? {
      RetireRenames(t, t.OwnedSlot(a).value);
      hide Table.NamesOk;
      ClocksRenameNothing(t.Retire(t.OwnedSlot(a).value), t.Exclude(a), []);
    } else {
      ClocksRenameNothing(t, t.Exclude(a), []);
    }
  }

  lemma NamesOfStep(t: Table, l: seq<nat>, call: Call)
    requires t.Valid() && Recency(t, l)
    ensures Held(Step(t, call)) == Renamed(Held(t), Leaves(t, l, call), Uses(t, call), Writes(call))
  {
    hide Held, FirstUnpinned, Table.Alloc, Table.Exclude, Table.Pin, Table.Unpin, Table.NoteTouched, Table.NewName;
    match call
    case AllocCall(name) => AllocRenames(t, l, name);
    case ExcludeCall(a) => ExcludeRenames(t, a);
    case TouchCall(a) => TouchRenamesNothing(t, a);
    case PinCall(a) => PinsRenameNothing(t, a, 0);
    case UnpinCall(a) => PinsRenameNothing(t, a, 0);
    case ProgressCall(ticks) => PinsRenameNothing(t, FakeIpAt(0), ticks);
  }

  // ------------------------------------------------------------ the refinement

  /**
   * Every call acts on the recency list by moving the row it uses to the back and
   * dropping the row it retires, which for a full table is the first unpinned one; and on
   * the map by emptying that row and writing the allocated name to the row it uses.
   */
  lemma StepRefinesRecency(t: Table, l: seq<nat>, call: Call)
    requires t.Valid() && Recency(t, l)
    ensures Recency(Step(t, call), Shuffled(l, Leaves(t, l, call), Uses(t, call)))
    ensures Held(Step(t, call)) == Renamed(Held(t), Leaves(t, l, call), Uses(t, call), Writes(call))
  {
    RecencyOfStep(t, l, call);
    NamesOfStep(t, l, call);
  }

  /** An address whose row a call neither retires nor uses answers afterwards what it answered before. */
  lemma OthersKeepTheirNames(t: Table, l: seq<nat>, call: Call, b: Octets)
    requires t.Valid() && Recency(t, l)
    requires SlotOf(b).Some? ==> SlotOf(b) != Leaves(t, l, call) && SlotOf(b) != Uses(t, call)
    ensures Step(t, call).Lookup(b) == t.Lookup(b)
  {
    hide Step, Leaves, Uses;
    NamesOfStep(t, l, call);
    StepKeepsValid(t, call);
    LookupReadsHeld(t, b);
    LookupReadsHeld(Step(t, call), b);
  }

  /** A table nobody has used stands for the empty map and the empty list. */
  lemma FreshStandsForNothing(quarantine: nat, a: Octets)
    ensures Recency(Fresh(quarantine).Exclude(a), []) && Held(Fresh(quarantine).Exclude(a)) == map[]
  {
  }

  /** Row i put where its last touch belongs. */
  function Inserted(l: seq<nat>, i: nat, rows: Rows): (out: seq<nat>)
    requires i < CAPACITY && forall k :: 0 <= k < |l| ==> l[k] < CAPACITY
    ensures forall x :: x in out <==> x == i || x in l
  {
    if l == [] || rows[i].lastUse < rows[l[0]].lastUse then [i] + l else [l[0]] + Inserted(l[1..], i, rows)
  }

  lemma {:induction false} InsertedAscends(l: seq<nat>, i: nat, rows: Rows)
    requires i < CAPACITY && (forall k :: 0 <= k < |l| ==> l[k] < CAPACITY) && Ascends(l, rows)
    requires forall k :: 0 <= k < |l| ==> rows[l[k]].lastUse != rows[i].lastUse
    ensures var out := Inserted(l, i, rows); (forall k :: 0 <= k < |out| ==> out[k] < CAPACITY) && Ascends(out, rows)
  {
    var out := Inserted(l, i, rows);
    assert forall k :: 0 <= k < |out| ==> out[k] in out;
    if l == [] {
    } else if rows[i].lastUse < rows[l[0]].lastUse {
      OlderInFront(i, l, rows);
    } else {
      InsertedAscends(l[1..], i, rows);
      var rest := Inserted(l[1..], i, rows);
      forall k | 0 <= k < |rest| ensures rows[l[0]].lastUse < rows[rest[k]].lastUse {
        assert rest[k] in rest;
      }
      OlderInFront(l[0], rest, rows);
    }
  }

  /** The live rows among the first n, least recently used first. */
  lemma {:induction false} ListBelow(t: Table, n: nat) returns (l: seq<nat>)
    requires t.NamesOk() && n <= CAPACITY
    ensures forall k :: 0 <= k < |l| ==> l[k] < n && t.Live(l[k])
    ensures forall i: nat :: i < n && t.Live(i) ==> i in l
    ensures Ascends(l, t.rows)
  {
    l := [];
    if n > 0 {
      l := ListBelow(t, n - 1);
      if t.Live(n - 1) {
        InsertedAscends(l, n - 1, t.rows);
        l := Inserted(l, n - 1, t.rows);
        assert forall k :: 0 <= k < |l| ==> l[k] in l;
      }
    }
  }

  /** One call acts on list and map as StepRefinesRecency says. */
  ghost predicate Refines(t: Table, l: seq<nat>, call: Call, later: Table, list: seq<nat>) {
    && Recency(t, l)
    && list == Shuffled(l, Leaves(t, l, call), Uses(t, call))
    && Held(later) == Renamed(Held(t), Leaves(t, l, call), Uses(t, call), Writes(call))
  }

  lemma StepRefines(t: Table, l: seq<nat>, call: Call) returns (list: seq<nat>)
    requires t.Valid() && Recency(t, l)
    ensures Recency(Step(t, call), list) && Refines(t, l, call, Step(t, call), list)
  {
    list := Shuffled(l, Leaves(t, l, call), Uses(t, call));
    StepRefinesRecency(t, l, call);
  }

  /**
   * Over any run the table is a one-to-one map with a recency list: every state has its
   * list, and each call turns one list and one map into the next.
   */
  lemma {:induction false} RunRefinesMapAndList(states: seq<Table>, calls: seq<Call>) returns (lists: seq<seq<nat>>)
    requires IsRun(states, calls)
    ensures |lists| == |states|
    ensures forall k :: 0 <= k < |states| ==> Recency(states[k], lists[k])
    ensures forall k {:trigger calls[k]} :: 0 <= k < |calls| ==>
              Refines(states[k], lists[k], calls[k], states[k + 1], lists[k + 1])
  {
    hide Step, Refines, Recency;
    var n := |calls|;
    if n == 0 {
      var first := ListOf(states[0]);
      lists := [first];
    } else {
      var before := RunRefinesMapAndList(states[..n], calls[..n - 1]);
      RunIsValid(states, calls, n - 1);
      assert states[..n][n - 1] == states[n - 1];
      var last := StepRefines(states[n - 1], before[n - 1], calls[n - 1]);
      lists := before + [last];
      forall k | 0 <= k < n - 1 ensures Refines(states[k], lists[k], calls[k], states[k + 1], lists[k + 1]) {
        assert calls[..n - 1][k] == calls[k] && states[..n][k + 1] == states[k + 1];
      }
    }
  }

  /** Every well-formed table has a recency list. */
  lemma ListOf(t: Table) returns (l: seq<nat>)
    requires t.Valid()
    ensures Recency(t, l)
  {
    l := ListBelow(t, CAPACITY);
  }
}
