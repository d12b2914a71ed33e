/**
 * The SOCKS5 UDP associations of a process: 32 rows, each a generation-tagged,
 * reference-counted ASSOCIATE.  The table as a value.
 */
module UdpAssociations {
  import opened Basics

  const ASSOCIATION_MAX := 32
  const IDLE_LIMIT_TICKS := 30
  const NO_ROW := 0xFFFF_FFFF_FFFF_FFFF

  datatype Association = Association(control: Handle, relay: Handle, bound: Endpoint, refcount: nat, lastUse: nat)

  const NO_ASSOCIATION := Association(0, 0, Endpoint(0, [], 0), 0, 0)

  /** A slot and the generation that filled it. */
  datatype Ref = Ref(slot: nat, generation: nat)

  const NO_REF := Ref(NO_ROW, 0)

  datatype Row = Row(state: Association, used: bool, generation: nat)

  const BLANK_ROW := Row(NO_ASSOCIATION, false, 0)

  type Rows = s: seq<Row> | |s| == ASSOCIATION_MAX witness seq(ASSOCIATION_MAX, _ => BLANK_ROW)

  function Closed(row: Row): Row {
    Row(NO_ASSOCIATION, false, row.generation)
  }

  /** Unreferenced and untouched for the idle limit, by a clock that did not run backwards. */
  predicate Idle(row: Row, tick: nat) {
    row.used && row.state.refcount == 0 && tick >= row.state.lastUse + IDLE_LIMIT_TICKS
  }

  /** The idle records among the first n rows, in row order. */
  function IdleRecords(rows: Rows, tick: nat, n: nat): seq<Association>
    requires n <= ASSOCIATION_MAX
  {
    if n == 0 then []
    else IdleRecords(rows, tick, n - 1) + if Idle(rows[n - 1], tick) then [rows[n - 1].state] else []
  }

  /** What a call answers, beside the table it leaves. */
  datatype Answer = Answer(table: Table, ref: Ref, ok: bool, handedBack: seq<Association>)

  datatype Table = Table(rows: Rows, live: int) {

    function RowOfControl(control: Handle, i: nat): (r: Option<nat>)
      requires i <= ASSOCIATION_MAX
      ensures r.Some? ==> i <= r.value < ASSOCIATION_MAX && rows[r.value].used && rows[r.value].state.control == control
      ensures forall k :: i <= k < (if r.Some? then r.value else ASSOCIATION_MAX) ==>
                            !rows[k].used || rows[k].state.control != control
      decreases ASSOCIATION_MAX - i
    {
      if i == ASSOCIATION_MAX then None
      else if rows[i].used && rows[i].state.control == control then Some(i)
      else RowOfControl(control, i + 1)
    }

    function FreeRow(i: nat): (r: Option<nat>)
      requires i <= ASSOCIATION_MAX
      ensures r.Some? ==> i <= r.value < ASSOCIATION_MAX && !rows[r.value].used
      ensures forall k :: i <= k < (if r.Some? then r.value else ASSOCIATION_MAX) ==> rows[k].used
      decreases ASSOCIATION_MAX - i
    {
      if i == ASSOCIATION_MAX then None
      else if !rows[i].used then Some(i)
      else FreeRow(i + 1)
    }

    predicate Resolves(ref: Ref) {
      ref.slot < ASSOCIATION_MAX && rows[ref.slot].used && rows[ref.slot].generation == ref.generation
    }

    function Get(ref: Ref): Option<Association> {
      if Resolves(ref) then Some(rows[ref.slot].state) else None
    }

    function WithState(i: nat, state: Association): Table
      requires i < ASSOCIATION_MAX
    {
      this.(rows := rows[i := rows[i].(state := state)])
    }

    function Open(control: Handle, relay: Handle, bound: Endpoint, tick: nat): Answer {
      match RowOfControl(control, 0)
      case Some(i) =>
        Answer(WithState(i, rows[i].state.(lastUse := tick)), Ref(i, rows[i].generation), true, [])
      case None =>
        match FreeRow(0)
        case None => Answer(this, NO_REF, false, [])
        case Some(i) =>
          var row := Row(Association(control, relay, bound, 0, tick), true, rows[i].generation + 1);
          Answer(Table(rows[i := row], live + 1), Ref(i, row.generation), true, [])
    }

    function Touch(ref: Ref, tick: nat): Answer {
      if !Resolves(ref) then Answer(this, ref, false, [])
      else Answer(WithState(ref.slot, rows[ref.slot].state.(lastUse := tick)), ref, true, [])
    }

    function Acquire(ref: Ref): Answer {
      if !Resolves(ref) then Answer(this, ref, false, [])
      else Answer(
        WithState(ref.slot, rows[ref.slot].state.(refcount := rows[ref.slot].state.refcount + 1)), ref, true, [])
    }

    function Release(ref: Ref, tick: nat): Answer {
      if !Resolves(ref) then Answer(this, ref, false, [])
      else
        var state := rows[ref.slot].state;
        var left := if state.refcount > 0 then state.refcount - 1 else 0;
        if left > 0 then Answer(WithState(ref.slot, state.(refcount := left, lastUse := tick)), ref, true, [])
        else Answer(Table(rows[ref.slot := Closed(rows[ref.slot])], live - 1), ref, true, [state.(refcount := 0)])
    }

    function ReapIdle(tick: nat): Answer {
      var survivors := seq(ASSOCIATION_MAX, i requires 0 <= i < ASSOCIATION_MAX =>
                                              if Idle(rows[i], tick) then Closed(rows[i]) else rows[i]);
      var died := IdleRecords(rows, tick, ASSOCIATION_MAX);
      Answer(Table(survivors, live - |died|), NO_REF, true, died)
    }

    ghost function UsedRows(): set<nat> { set i: nat | i < ASSOCIATION_MAX && rows[i].used }

    /** live counts the rows in use, and no control socket has two of them. */
    ghost predicate Valid() {
      && live == |UsedRows()|
      && forall i, j :: 0 <= i < j < ASSOCIATION_MAX && rows[i].used && rows[j].used ==>
                          rows[i].state.control != rows[j].state.control
    }
  }

  const EMPTY := Table(seq(ASSOCIATION_MAX, _ => BLANK_ROW), 0)

  datatype Call =
    | OpenCall(control: Handle, relay: Handle, bound: Endpoint, tick: nat)
    | TouchCall(ref: Ref, tick: nat)
    | AcquireCall(ref: Ref)
    | ReleaseCall(ref: Ref, tick: nat)
    | ReapCall(tick: nat)

  function Perform(t: Table, call: Call): Answer {
    match call
    case OpenCall(control, relay, bound, tick) => t.Open(control, relay, bound, tick)
    case TouchCall(ref, tick) => t.Touch(ref, tick)
    case AcquireCall(ref) => t.Acquire(ref)
    case ReleaseCall(ref, tick) => t.Release(ref, tick)
    case ReapCall(tick) => t.ReapIdle(tick)
  }

  // ------------------------------------------------- what one call preserves

  /** The idle rows among the first n. */
  ghost function IdleRows(rows: Rows, tick: nat, n: nat): set<nat>
    requires n <= ASSOCIATION_MAX
  {
    set i: nat | i < n && Idle(rows[i], tick)
  }

  lemma {:induction false} IdleRecordsCount(rows: Rows, tick: nat, n: nat)
    requires n <= ASSOCIATION_MAX
    ensures |IdleRecords(rows, tick, n)| == |IdleRows(rows, tick, n)|
  {
    if n == 0 {
      assert IdleRows(rows, tick, 0) == {};
    } else {
      IdleRecordsCount(rows, tick, n - 1);
      var before := IdleRows(rows, tick, n - 1);
      assert IdleRows(rows, tick, n) == before + if Idle(rows[n - 1], tick) then {n - 1} else {};
    }
  }

  /** Every record handed back is an idle row's, every idle row's is handed back. */
  lemma {:induction false} IdleRecordsExact(rows: Rows, tick: nat, n: nat, a: Association)
    requires n <= ASSOCIATION_MAX
    ensures a in IdleRecords(rows, tick, n) <==> exists i :: 0 <= i < n && Idle(rows[i], tick) && rows[i].state == a
  {
    if n > 0 {
      IdleRecordsExact(rows, tick, n - 1, a);
    }
  }

  lemma EmptyIsValid()
    ensures EMPTY.Valid()
  {
    assert EMPTY.UsedRows() == {};
  }

  lemma OpenKeepsValid(t: Table, control: Handle, relay: Handle, bound: Endpoint, tick: nat)
    requires t.Valid()
    ensures t.Open(control, relay, bound, tick).table.Valid()
  {
    var after := t.Open(control, relay, bound, tick).table;
    if t.RowOfControl(control, 0).Some? {
      StateKeepsValid(t, t.RowOfControl(control, 0).value, after.rows[t.RowOfControl(control, 0).value].state);
    } else if t.FreeRow(0).Some? {
      FillKeepsValid(t, t.FreeRow(0).value, after.rows[t.FreeRow(0).value]);
    }
  }

  lemma FillKeepsValid(t: Table, i: nat, row: Row)
    requires t.Valid() && i < ASSOCIATION_MAX && !t.rows[i].used && row.used
    requires forall k :: 0 <= k < ASSOCIATION_MAX && t.rows[k].used ==> t.rows[k].state.control != row.state.control
    ensures Table(t.rows[i := row], t.live + 1).Valid()
  {
    assert Table(t.rows[i := row], t.live + 1).UsedRows() == t.UsedRows() + {i};
  }

  /** Rewriting a row without touching its control socket. */
  lemma StateKeepsValid(t: Table, i: nat, state: Association)
    requires t.Valid() && i < ASSOCIATION_MAX && state.control == t.rows[i].state.control
    ensures t.WithState(i, state).Valid()
  {
    assert t.WithState(i, state).UsedRows() == t.UsedRows();
  }

  lemma ReleaseKeepsValid(t: Table, ref: Ref, tick: nat)
    requires t.Valid()
    ensures t.Release(ref, tick).table.Valid()
  {
    if t.Resolves(ref) {
      var after := t.Release(ref, tick).table;
      if t.Release(ref, tick).handedBack != [] {
        assert after.UsedRows() == t.UsedRows() - {ref.slot};
      } else {
        StateKeepsValid(t, ref.slot, after.rows[ref.slot].state);
      }
    }
  }

  lemma ReapKeepsValid(t: Table, tick: nat)
    requires t.Valid()
    ensures t.ReapIdle(tick).table.Valid()
  {
    IdleRecordsCount(t.rows, tick, ASSOCIATION_MAX);
    var idle := IdleRows(t.rows, tick, ASSOCIATION_MAX);
    assert t.ReapIdle(tick).table.UsedRows() == t.UsedRows() - idle && idle <= t.UsedRows();
  }

  lemma HoldKeepsValid(t: Table, ref: Ref, tick: nat)
    requires t.Valid()
    ensures t.Acquire(ref).table.Valid() && t.Touch(ref, tick).table.Valid()
  {
    if t.Resolves(ref) {
      var state := t.rows[ref.slot].state;
      StateKeepsValid(t, ref.slot, state.(refcount := state.refcount + 1));
      StateKeepsValid(t, ref.slot, state.(lastUse := tick));
    }
  }

  /** Every call keeps live exact and control sockets unique. */
  lemma CallKeepsValid(t: Table, call: Call)
    requires t.Valid()
    ensures Perform(t, call).table.Valid()
  {
    match call
    case OpenCall(control, relay, bound, tick) => OpenKeepsValid(t, control, relay, bound, tick);
    case TouchCall(ref, tick) => HoldKeepsValid(t, ref, tick);
    case AcquireCall(ref) => HoldKeepsValid(t, ref, 0);
    case ReleaseCall(ref, tick) => ReleaseKeepsValid(t, ref, tick);
    case ReapCall(tick) => ReapKeepsValid(t, tick);
  }
}
