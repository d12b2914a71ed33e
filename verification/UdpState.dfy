/**
 * Per-socket UDP state: 256 rows with two bounded datagram queues each, LRU
 * eviction, and a ring of retired socket values.  The table as a value.
 */
module UdpState {
  import opened Basics

  const MAX_ROWS := 256
  const QUEUE_MAX_DATAGRAMS := 64
  const QUEUE_MAX_BYTES := 1024 * 1024
  const KEY_QUARANTINE := 256

  // ------------------------------------------------------------ queues

  datatype Datagram = Datagram(peer: Endpoint, payload: seq<byte>)

  /** One direction of one socket: what is queued, oldest first, and the byte counter kept beside it. */
  datatype Queue = Queue(items: seq<Datagram>, bytes: int)

  const EMPTY_QUEUE := Queue([], 0)

  function TotalBytes(items: seq<Datagram>): nat {
    if items == [] then 0 else |items[0].payload| + TotalBytes(items[1..])
  }

  lemma {:induction false} TotalBytesAppend(items: seq<Datagram>, d: Datagram)
    ensures TotalBytes(items + [d]) == TotalBytes(items) + |d.payload|
  {
    if items == [] {
      assert TotalBytes([d]) == |d.payload| + TotalBytes([]);
    } else {
      TotalBytesAppend(items[1..], d);
      assert (items + [d])[1..] == items[1..] + [d];
    }
  }

  /** The byte counter is the sum of the queued sizes, and both budgets hold. */
  ghost predicate WithinBudget(q: Queue) {
    && q.bytes == TotalBytes(q.items) <= QUEUE_MAX_BYTES
    && |q.items| <= QUEUE_MAX_DATAGRAMS
  }

  /** A newcomer of this size fits behind these items. */
  ghost predicate Fits(items: seq<Datagram>, size: nat) {
    |items| + 1 <= 64 && TotalBytes(items) + size <= 0x10_0000
  }

  /** The queue after the oldest datagrams made room for one of this size. */
  function Trimmed(q: Queue, size: nat): (out: Queue)
    ensures |out.items| <= |q.items|
    decreases |q.items|
  {
    if q.items != [] && (|q.items| + 1 > QUEUE_MAX_DATAGRAMS || q.bytes + size > QUEUE_MAX_BYTES)
    then Trimmed(Queue(q.items[1..], q.bytes - |q.items[0].payload|), size)
    else q
  }

  /** A push throws away exactly the shortest prefix that lets the newcomer fit. */
  lemma {:induction false} TrimIsShortest(q: Queue, size: nat) returns (lost: nat)
    requires WithinBudget(q) && size <= QUEUE_MAX_BYTES
    ensures lost <= |q.items| && Trimmed(q, size) == Queue(q.items[lost..], TotalBytes(q.items[lost..]))
    ensures Fits(q.items[lost..], size)
    ensures forall j :: 0 <= j < lost ==> !Fits(q.items[j..], size)
    decreases |q.items|
  {
    if q.items == [] || Fits(q.items, size) {
      lost := 0;
    } else {
      var rest := TrimIsShortest(Queue(q.items[1..], q.bytes - |q.items[0].payload|), size);
      lost := rest + 1;
      assert forall j :: 1 <= j <= lost ==> q.items[j..] == q.items[1..][j - 1..];
    }
  }

  // ------------------------------------------------------------ rows

  datatype SocketType = Unknown | Stream | Dgram

  datatype State = State(app: Handle, peer: Option<Endpoint>, kind: SocketType, takeover: bool, unmanaged: bool,
                         tx: Queue, rx: Queue, pinned: nat, lastUse: nat)
  {
    function Of(rxSide: bool): Queue { if rxSide then rx else tx }

    function With(rxSide: bool, q: Queue): State { if rxSide then this.(rx := q) else this.(tx := q) }

    /** One queue with a datagram behind whatever had to stay; an oversized one changes nothing. */
    function Enqueued(d: Datagram, rxSide: bool): State {
      if |d.payload| > QUEUE_MAX_BYTES then this
      else
        var trimmed := Trimmed(Of(rxSide), |d.payload|);
        With(rxSide, Queue(trimmed.items + [d], trimmed.bytes + |d.payload|))
    }

    /** One queue without its oldest datagram. */
    function Dequeued(rxSide: bool): State {
      var q := Of(rxSide);
      if q.items == [] then this
      else With(rxSide, Queue(q.items[1..], q.bytes - |q.items[0].payload|))
    }

    function Load(): nat { |tx.items| + |rx.items| }
  }

  /** A row as it is when its socket is first seen. */
  function Blank(app: Handle, tick: nat): State {
    State(app, None, Unknown, false, false, EMPTY_QUEUE, EMPTY_QUEUE, 0, tick)
  }

  datatype Row = Row(state: State, used: bool)

  const UNUSED_ROW := Row(Blank(0, 0), false)

  type Rows = s: seq<Row> | |s| == MAX_ROWS witness seq(MAX_ROWS, _ => UNUSED_ROW)

  datatype RetiredKey = RetiredKey(app: Handle, reusableAt: nat)

  /** The keys whose ring is still running at this clock, oldest first. */
  function Pruned(keys: seq<RetiredKey>, insertions: nat): (still: seq<RetiredKey>)
    ensures |still| <= |keys|
  {
    if keys == [] then []
    else
      var last := keys[|keys| - 1];
      Pruned(keys[..|keys| - 1], insertions) + if insertions < last.reusableAt then [last] else []
  }

  predicate Quarantined(keys: seq<RetiredKey>, insertions: nat, app: Handle) {
    exists k :: 0 <= k < |keys| && keys[k].app == app && insertions < keys[k].reusableAt
  }

  /** Things a caller may note about a socket. */
  datatype Note = PeerIs(peer: Endpoint) | TypeIs(kind: SocketType) | TakenOver | PermanentlyUnmanaged

  function Noted(s: State, note: Note): State {
    match note
    case PeerIs(peer) => s.(peer := Some(peer))
    case TypeIs(kind) => s.(kind := kind)
    case TakenOver => s.(takeover := true)
    case PermanentlyUnmanaged => s.(unmanaged := true)
  }

  datatype Pushed = Accepted | DroppedOldest | Refused

  /** What a call answers, beside the table it leaves. */
  datatype Answer = Answer(table: Table, row: Option<nat>, ok: bool, pushed: Option<Pushed>, popped: Option<Datagram>)

  datatype Table = Table(
    rows: Rows,
    retired: seq<RetiredKey>,
    insertions: nat,
    rowsUsed: int,
    dropped: nat,
    discarded: nat,
    refused: nat
  ) {
    predicate Holds(i: nat, app: Handle) requires i < MAX_ROWS { rows[i].used && rows[i].state.app == app }

    function RowFrom(app: Handle, i: nat): (r: Option<nat>)
      requires i <= MAX_ROWS
      ensures r.Some? ==> i <= r.value < MAX_ROWS && Holds(r.value, app)
      ensures forall k :: i <= k < (if r.Some? then r.value else MAX_ROWS) ==> !Holds(k, app)
      decreases MAX_ROWS - i
    {
      if i == MAX_ROWS then None
      else if Holds(i, app) then Some(i)
      else RowFrom(app, i + 1)
    }

    /** find(): the row of a socket. */
    function RowOf(app: Handle): (r: Option<nat>)
      ensures r.Some? ==> r.value < MAX_ROWS
    {
      RowFrom(app, 0)
    }

    function FreeFrom(i: nat): (r: Option<nat>)
      requires i <= MAX_ROWS
      ensures r.Some? ==> i <= r.value < MAX_ROWS && !rows[r.value].used
      ensures forall k :: i <= k < (if r.Some? then r.value else MAX_ROWS) ==> rows[k].used
      decreases MAX_ROWS - i
    {
      if i == MAX_ROWS then None
      else if !rows[i].used then Some(i)
      else FreeFrom(i + 1)
    }

    predicate Evictable(i: nat, app: Handle) requires i < MAX_ROWS {
      rows[i].state.pinned == 0 && rows[i].state.app != app
    }

    /** The least recently used evictable row among the first n, the lowest row on a tie. */
    function LruBelow(app: Handle, n: nat): (r: Option<nat>)
      requires n <= MAX_ROWS
      ensures r.Some? ==> r.value < n && Evictable(r.value, app)
      ensures r.None? ==> forall k :: 0 <= k < n ==> !Evictable(k, app)
      ensures r.Some? ==> forall k :: 0 <= k < n && Evictable(k, app) ==>
                rows[r.value].state.lastUse < rows[k].state.lastUse
                || (rows[r.value].state.lastUse == rows[k].state.lastUse && r.value <= k)
    {
      if n == 0 then None
      else
        var victim := LruBelow(app, n - 1);
        if !Evictable(n - 1, app) then victim
        else if victim.None? || rows[n - 1].state.lastUse < rows[victim.value].state.lastUse then Some(n - 1)
        else victim
    }

    /** Where a newcomer goes: the first empty row, or the victim of an eviction when there is none. */
    function SlotFor(app: Handle): (r: Option<nat>)
      ensures r.Some? ==> r.value < MAX_ROWS
    {
      if FreeFrom(0).Some? then FreeFrom(0) else LruBelow(app, MAX_ROWS)
    }

    /** Row i written with this state; nothing else moves. */
    function WithState(i: nat, s: State): Table requires i < MAX_ROWS {
      this.(rows := rows[i := rows[i].(state := s)])
    }

    /** The clock and the ring as an insertion attempt leaves them, successful or not. */
    function Inserting(): Table {
      this.(insertions := insertions + 1, retired := Pruned(retired, insertions + 1))
    }

    /** Row i given to a socket, whatever it held counted as discarded. */
    function Install(i: nat, app: Handle, tick: nat): Table requires i < MAX_ROWS {
      this.(rows := rows[i := Row(Blank(app, tick), true)],
            rowsUsed := if rows[i].used then rowsUsed else rowsUsed + 1,
            discarded := if rows[i].used then discarded + rows[i].state.Load() else discarded)
    }

    function Admit(app: Handle, tick: nat): Answer {
      if Quarantined(retired, insertions, app) then Report(None)
      else
        match SlotFor(app)
        case None => Report(None)
        case Some(i) => Answer(Install(i, app, tick), Some(i), true, None, None)
    }

    function Report(row: Option<nat>): Answer { Answer(this, row, row.Some?, None, None) }

    function Open(app: Handle, tick: nat): (a: Answer)
      ensures a.row.Some? ==> a.row.value < MAX_ROWS
    {
      match RowOf(app)
      case Some(i) => WithState(i, rows[i].state.(lastUse := tick)).Report(Some(i))
      case None => Inserting().Admit(app, tick)
    }

    function Retire(app: Handle): Answer {
      match RowOf(app)
      case None => Report(None)
      case Some(i) =>
        Answer(this.(rows := rows[i := UNUSED_ROW], rowsUsed := rowsUsed - 1,
                     discarded := discarded + rows[i].state.Load(),
                     retired := retired + [RetiredKey(app, insertions + KEY_QUARANTINE)]),
               None, true, None, None)
    }

    /** A datagram appended to one queue of row i, the oldest making room. */
    function Enqueue(i: nat, d: Datagram, rxSide: bool): Answer requires i < MAX_ROWS {
      if |d.payload| > QUEUE_MAX_BYTES then Answer(this.(refused := refused + 1), None, false, Some(Refused), None)
      else
        var s := rows[i].state;
        var lost := |s.Of(rxSide).items| - |Trimmed(s.Of(rxSide), |d.payload|).items|;
        Answer(WithState(i, s.Enqueued(d, rxSide)).(dropped := dropped + lost),
               None, true, Some(if lost == 0 then Accepted else DroppedOldest), None)
    }

    function Push(app: Handle, tick: nat, d: Datagram, rxSide: bool): Answer {
      var admitted := Open(app, tick);
      match admitted.row
      case None => Answer(admitted.table.(refused := admitted.table.refused + 1), None, false, Some(Refused), None)
      case Some(i) => admitted.table.Enqueue(i, d, rxSide)
    }

    function Pop(app: Handle, tick: nat, rxSide: bool): Answer {
      match RowOf(app)
      case None => Report(None)
      case Some(i) =>
        var s := rows[i].state.(lastUse := tick);
        var items := s.Of(rxSide).items;
        Answer(WithState(i, s.Dequeued(rxSide)), None, items != [], None, if items == [] then None else Some(items[0]))
    }

    function Annotate(app: Handle, tick: nat, note: Note): Answer {
      var admitted := Open(app, tick);
      match admitted.row
      case None => admitted
      case Some(i) => admitted.table.WithState(i, Noted(admitted.table.rows[i].state, note)).Report(Some(i))
    }

    function Pin(app: Handle): Answer {
      match RowOf(app)
      case None => Report(None)
      case Some(i) => WithState(i, rows[i].state.(pinned := rows[i].state.pinned + 1)).Report(Some(i))
    }

    function Unpin(app: Handle): Answer {
      match RowOf(app)
      case None => Report(None)
      case Some(i) =>
        if rows[i].state.pinned == 0 then Report(None)
        else WithState(i, rows[i].state.(pinned := rows[i].state.pinned - 1)).Report(Some(i))
    }

    // ------------------------------------------------------------ invariant

    ghost function UsedRows(): set<nat> { set i: nat | i < MAX_ROWS && rows[i].used }

    ghost predicate Rowless(app: Handle) {
      forall i :: 0 <= i < MAX_ROWS && rows[i].used ==> rows[i].state.app != app
    }

    /** One row a socket, every queue within both budgets, nothing queued in an unused row. */
    ghost predicate RowsOk() {
      && (forall i, j :: 0 <= i < j < MAX_ROWS && rows[i].used && rows[j].used ==>
            rows[i].state.app != rows[j].state.app)
      && (forall i :: 0 <= i < MAX_ROWS ==> WithinBudget(rows[i].state.tx) && WithinBudget(rows[i].state.rx))
      && (forall i :: 0 <= i < MAX_ROWS && !rows[i].used ==> rows[i].state.Load() == 0)
    }

    /** Retired keys are unexpired, name distinct sockets, and none of those has a row. */
    ghost predicate RingOk() {
      && (forall k :: 0 <= k < |retired| ==> KEY_QUARANTINE <= retired[k].reusableAt
                                             && insertions < retired[k].reusableAt <= insertions + KEY_QUARANTINE)
      && (forall k, m :: 0 <= k < m < |retired| ==> retired[k].app != retired[m].app)
      && (forall k :: 0 <= k < |retired| ==> Rowless(retired[k].app))
    }

    /** Keys retired at clock j or later and the rows in use are paid for by insertions since j. */
    ghost predicate Amortised() {
      forall j: nat :: j <= insertions ==> RetiredSince(retired, j) + rowsUsed <= MAX_ROWS + insertions - j
    }

    ghost predicate Valid() {
      && rowsUsed == |UsedRows()|
      && RowsOk() && RingOk() && Amortised()
    }
  }

  /** How many of the keys were retired at insertion clock j or later. */
  ghost function RetiredSince(keys: seq<RetiredKey>, j: nat): nat {
    if keys == [] then 0
    else RetiredSince(keys[..|keys| - 1], j) + if keys[|keys| - 1].reusableAt >= j + KEY_QUARANTINE then 1 else 0
  }

  const EMPTY_TABLE := Table(seq(MAX_ROWS, _ => UNUSED_ROW), [], 0, 0, 0, 0, 0)

  datatype Call =
    | OpenCall(app: Handle, tick: nat)
    | RetireCall(app: Handle)
    | PushCall(app: Handle, tick: nat, dgram: Datagram, rxSide: bool)
    | PopCall(app: Handle, tick: nat, rxSide: bool)
    | AnnotateCall(app: Handle, tick: nat, note: Note)
    | PinCall(app: Handle)
    | UnpinCall(app: Handle)

  function Perform(t: Table, call: Call): Answer {
    match call
    case OpenCall(app, tick) => t.Open(app, tick)
    case RetireCall(app) => t.Retire(app)
    case PushCall(app, tick, d, rxSide) => t.Push(app, tick, d, rxSide)
    case PopCall(app, tick, rxSide) => t.Pop(app, tick, rxSide)
    case AnnotateCall(app, tick, note) => t.Annotate(app, tick, note)
    case PinCall(app) => t.Pin(app)
    case UnpinCall(app) => t.Unpin(app)
  }
}
