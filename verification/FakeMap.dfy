/**
 * From a sockaddr buffer to a connect verdict: recognising a fake address in
 * either spelling, asking the table for its name, and deciding what to do.
 */
module FakeMap {
  import opened Basics
  import opened FakeIp
  import opened FakeIpRuns
  import opened FakeIpRecency
  import opened FakeIpTables

  const AF_INET := 2
  const AF_INET6 := 23
  const FAMILY_BYTES := 2
  const SOCKADDR_IN_SIZE := 16
  const SOCKADDR_IN6_SIZE := 28
  const MAX_LENGTH := 128   // sizeof(sockaddr_storage)

  const NO_OCTETS := Octets(0, 0, 0, 0)

  datatype AddrRead = AddrRead(readable: bool, inRange: bool, issuable: bool, v4: Octets, slot: nat, port: nat)

  const UNREAD := AddrRead(false, false, false, NO_OCTETS, 0, 0)

  /** sa_family as a little-endian host stores it. */
  function Family(buf: seq<byte>): nat
    requires |buf| >= FAMILY_BYTES
  {
    HostPort(buf[1], buf[0])
  }

  function HostPort(hi: byte, lo: byte): nat { 256 * hi + lo }

  function OctetsAt(buf: seq<byte>, at: nat): Octets
    requires at + 4 <= |buf|
  {
    Octets(buf[at], buf[at + 1], buf[at + 2], buf[at + 3])
  }

  /** The 16 octets from `at` on spell ::ffff:a.b.c.d. */
  predicate IsV4Mapped(buf: seq<byte>, at: nat)
    requires at + 16 <= |buf|
  {
    (forall i :: at <= i < at + 10 ==> buf[i] == 0) && buf[at + 10] == 0xff && buf[at + 11] == 0xff
  }

  function Classify(v4: Octets, port: nat): AddrRead {
    var slot := SlotOf(v4);
    AddrRead(true, InFakeRange(v4), slot.Some?, v4, if slot.Some? then slot.value else 0, port)
  }

  /** The recogniser.  `name` is the pointer, `len` what the caller says lies behind it. */
  function ReadFakeAddr(name: Option<seq<byte>>, len: int): AddrRead
    requires name.Some? ==> len <= |name.value|
  {
    if name.None? || len < FAMILY_BYTES || len > MAX_LENGTH then UNREAD
    else
      var buf := name.value;
      if Family(buf) == AF_INET then
        if len < SOCKADDR_IN_SIZE then UNREAD
        else Classify(OctetsAt(buf, 4), HostPort(buf[2], buf[3]))
      else if Family(buf) == AF_INET6 then
        if len < SOCKADDR_IN6_SIZE || !IsV4Mapped(buf, 8) then UNREAD
        else Classify(OctetsAt(buf, 20), HostPort(buf[2], buf[3]))
      else UNREAD
  }

  /** Nothing past the promised length can change the answer. */
  lemma ReadsOnlyThePromisedBytes(a: seq<byte>, b: seq<byte>, len: nat)
    requires len <= |a| && len <= |b| && a[..len] == b[..len]
    ensures ReadFakeAddr(Some(a), len) == ReadFakeAddr(Some(b), len)
  {
    forall i | 0 <= i < len ensures a[i] == b[i] {
      assert a[i] == a[..len][i] && b[i] == b[..len][i];
    }
    if len >= SOCKADDR_IN6_SIZE {
      assert IsV4Mapped(a, 8) <==> IsV4Mapped(b, 8);
    }
  }

  // ------------------------------------------------------------ the two spellings

  /** A sockaddr_in, followed by whatever else the caller's buffer holds. */
  function SpellV4(v4: Octets, port: nat, rest: seq<byte>): seq<byte>
    requires port < 65536
  {
    [AF_INET, 0, port / 256, port % 256, v4.a, v4.b, v4.c, v4.d] + seq(8, _ => 0) + rest
  }

  /** A sockaddr_in6 holding the v4-mapped form of v4. */
  function SpellMapped(v4: Octets, port: nat, flow: seq<byte>, rest: seq<byte>): seq<byte>
    requires port < 65536 && |flow| == 4
  {
    [AF_INET6, 0, port / 256, port % 256] + flow + seq(10, _ => 0) + [0xff, 0xff, v4.a, v4.b, v4.c, v4.d] + rest
  }

  /** Both spellings of an address read back as that address and port, at any length a caller may advertise. */
  lemma SpellingsReadBack(
      v4: Octets, port: nat, flow: seq<byte>, rest4: seq<byte>, rest6: seq<byte>, len4: nat, len6: nat)
    requires port < 65536 && |flow| == 4
    requires SOCKADDR_IN_SIZE <= len4 <= MAX_LENGTH && len4 <= |SpellV4(v4, port, rest4)|
    requires SOCKADDR_IN6_SIZE <= len6 <= MAX_LENGTH && len6 <= |SpellMapped(v4, port, flow, rest6)|
    ensures ReadFakeAddr(Some(SpellV4(v4, port, rest4)), len4) == Classify(v4, port)
    ensures ReadFakeAddr(Some(SpellMapped(v4, port, flow, rest6)), len6) == Classify(v4, port)
  {
    var head := [AF_INET6, 0, port / 256, port % 256];
    var buf := SpellMapped(v4, port, flow, rest6);
    assert buf[..4] == head;
    assert forall i :: 8 <= i < 18 ==> buf[i] == 0;
    assert OctetsAt(buf, 20) == v4;
  }

  /** A read address is in range and issuable exactly when it is the address of its slot. */
  lemma IssuableIsASlot(name: Option<seq<byte>>, len: int)
    requires name.Some? ==> len <= |name.value|
    ensures var r := ReadFakeAddr(name, len);
            && (r.issuable <==> r.inRange && r.v4.d != 0 && r.v4.d != 255)
            && (r.issuable ==> r.slot < CAPACITY && r.v4 == FakeIpAt(r.slot))
            && (r.inRange ==> r.readable)
  {
  }

  /**
   * The bytes a sockaddr_in of v4 and port starts with, and those of the v4-mapped sockaddr_in6
   * around its flow label.
   */
  ghost predicate SpellsV4(buf: seq<byte>, v4: Octets, port: nat) {
    |buf| >= 8 && port < 65536 && buf[..8] == [2, 0, port / 256, port % 256, v4.a, v4.b, v4.c, v4.d]
  }

  ghost predicate SpellsMapped(buf: seq<byte>, v4: Octets, port: nat) {
    && |buf| >= 24 && port < 65536
    && buf[..4] == [23, 0, port / 256, port % 256]
    && buf[8..24] == [0, 0, 0, 0, 0, 0, 0, 0, 0, 0, 255, 255, v4.a, v4.b, v4.c, v4.d]
  }

  /**
   * A buffer is read as an address and port exactly when it starts with one of their two
   * spellings and the advertised length covers that sockaddr and no more than any sockaddr.
   */
  lemma ReadExactlyWhenSpelled(buf: seq<byte>, len: int, v4: Octets, port: nat)
    requires len <= |buf|
    ensures ReadFakeAddr(Some(buf), len) == Classify(v4, port)
       <==> || (16 <= len <= 128 && SpellsV4(buf, v4, port))
            || (28 <= len <= 128 && SpellsMapped(buf, v4, port))
    ensures ReadFakeAddr(Some(buf), len).readable ==>
              exists v: Octets, p: nat :: ReadFakeAddr(Some(buf), len) == Classify(v, p)
  {
    if 16 <= len <= 128 && Family(buf) == AF_INET {
      PortsMatch(buf, port);
      assert buf[..8] == buf[..4] + buf[4..8] && buf[..4] == [buf[0], buf[1], buf[2], buf[3]];
      assert ReadFakeAddr(Some(buf), len) == Classify(OctetsAt(buf, 4), HostPort(buf[2], buf[3]));
    } else if 28 <= len <= 128 && Family(buf) == AF_INET6 {
      PortsMatch(buf, port);
      MappedBytes(buf, v4);
      if IsV4Mapped(buf, 8) {
        assert ReadFakeAddr(Some(buf), len) == Classify(OctetsAt(buf, 20), HostPort(buf[2], buf[3]));
      }
    }
    if 16 <= len && (SpellsV4(buf, v4, port) || (28 <= len && SpellsMapped(buf, v4, port))) {
      assert buf[0] == buf[..4][0] && buf[1] == buf[..4][1];
      if SpellsV4(buf, v4, port) {
        assert buf[0] == buf[..8][0] && buf[1] == buf[..8][1];
      }
    }
  }

  lemma PortsMatch(buf: seq<byte>, port: nat)
    requires |buf| >= 4
    ensures HostPort(buf[2], buf[3]) == port <==> port < 65536 && buf[2..4] == [port / 256, port % 256]
    ensures buf[..4] == [buf[0], buf[1]] + buf[2..4]
  {
    assert buf[2..4] == [buf[2], buf[3]];
  }

  lemma MappedBytes(buf: seq<byte>, v4: Octets)
    requires |buf| >= 24
    ensures IsV4Mapped(buf, 8) && OctetsAt(buf, 20) == v4
       <==> buf[8..24] == [0, 0, 0, 0, 0, 0, 0, 0, 0, 0, 255, 255, v4.a, v4.b, v4.c, v4.d]
  {
    var spelled := [0, 0, 0, 0, 0, 0, 0, 0, 0, 0, 255, 255, v4.a, v4.b, v4.c, v4.d];
    assert forall i :: 8 <= i < 24 ==> buf[i] == buf[8..24][i - 8];
    if IsV4Mapped(buf, 8) && OctetsAt(buf, 20) == v4 {
      assert forall i :: 0 <= i < 16 ==> buf[8..24][i] == spelled[i];
    }
  }

  // ------------------------------------------------------------ verdicts

  datatype Verdict = RouteByName(name: string) | Refuse | Passthrough

  /** The policy, a function of what was read, what the table answered and whether a proxy is set. */
  function ConnectVerdict(addr: AddrRead, answer: Option<string>, proxyConfigured: bool): Verdict {
    if !addr.inRange then Passthrough
    else if answer.Some? && answer.value != "" then RouteByName(answer.value)
    else if proxyConfigured then Refuse
    else Passthrough
  }

  /** The policy told exactly, for any answer a caller may bring, an empty name included, which counts as none. */
  lemma PolicyExactlyWhen(addr: AddrRead, answer: Option<string>, proxyConfigured: bool, n: string)
    ensures var verdict, named := ConnectVerdict(addr, answer, proxyConfigured), answer.Some? && answer.value != "";
            && (verdict == RouteByName(n) <==> addr.inRange && answer == Some(n) && n != "")
            && (verdict == Refuse <==> addr.inRange && !named && proxyConfigured)
            && (verdict == Passthrough <==> !addr.inRange || (!named && !proxyConfigured))
  {
  }

  /** decide(): the table is asked only about addresses in the range. */
  function Decision(t: Table, addr: AddrRead, proxyConfigured: bool): Verdict {
    if !addr.inRange then Passthrough
    else ConnectVerdict(addr, t.Lookup(addr.v4), proxyConfigured)
  }

  /** A connect is routed by a name exactly when the buffer spells the one address the table holds for it. */
  lemma RoutedExactlyWhenHeld(t: Table, name: Option<seq<byte>>, len: int, proxyConfigured: bool, n: string)
    requires name.Some? ==> len <= |name.value|
    ensures var addr := ReadFakeAddr(name, len);
            Decision(t, addr, proxyConfigured) == RouteByName(n) <==> addr.readable && t.Lookup(addr.v4) == Some(n)
  {
  }

  /**
   * The three verdicts, told apart exactly: a connect is refused when it names an address
   * of the range that answers nothing and a proxy is set; it is left alone when it names
   * no address of the range, or none that answers while no proxy is set; else it is routed.
   */
  lemma VerdictExactlyWhen(t: Table, addr: AddrRead, proxyConfigured: bool)
    ensures Decision(t, addr, proxyConfigured) == Refuse
       <==> proxyConfigured && addr.inRange && t.Lookup(addr.v4).None?
    ensures Decision(t, addr, proxyConfigured) == Passthrough
       <==> !addr.inRange || (!proxyConfigured && t.Lookup(addr.v4).None?)
  {
  }

  /** On buffers: anything that does not spell an address of 198.51.100.0/24 is left alone, proxy or not. */
  lemma ForeignIsLeftAlone(t: Table, buf: seq<byte>, len: int, proxyConfigured: bool)
    requires len <= |buf|
    ensures Decision(t, ReadFakeAddr(None, len), proxyConfigured) == Passthrough
    ensures (forall v4: Octets, port: nat ::
               ReadFakeAddr(Some(buf), len) == Classify(v4, port) ==> !(v4.a == 198 && v4.b == 51 && v4.c == 100))
            ==> Decision(t, ReadFakeAddr(Some(buf), len), proxyConfigured) == Passthrough
  {
    var addr := ReadFakeAddr(Some(buf), len);
    if addr.readable {
      ReadExactlyWhenSpelled(buf, len, addr.v4, addr.port);
    }
  }

  /** And anything that spells one is refused or routed while a proxy is set, by what the table answers for it. */
  lemma FakeIsRoutedOrRefused(t: Table, buf: seq<byte>, len: int, v4: Octets, port: nat)
    requires len <= |buf| && v4.a == 198 && v4.b == 51 && v4.c == 100
    requires (16 <= len <= 128 && SpellsV4(buf, v4, port)) || (28 <= len <= 128 && SpellsMapped(buf, v4, port))
    ensures Decision(t, ReadFakeAddr(Some(buf), len), true)
         == if t.Lookup(v4).Some? then RouteByName(t.Lookup(v4).value) else Refuse
  {
    ReadExactlyWhenSpelled(buf, len, v4, port);
  }

  /** With a proxy configured, an address of the range never goes out directly. */
  lemma RangeNeverGoesDirect(t: Table, addr: AddrRead)
    requires addr.inRange
    ensures Decision(t, addr, true) != Passthrough
  {
  }

  /** Resolve, then connect: the address alloc just gave for a name routes by that name in both spellings. */
  lemma ResolvedNameIsRouted(t: Table, n: string, port: nat, flow: seq<byte>, rest4: seq<byte>, rest6: seq<byte>,
                             len4: nat, len6: nat, proxyConfigured: bool)
    requires t.Valid() && t.Alloc(n).issued.Some?
    requires port < 65536 && |flow| == 4
    requires SOCKADDR_IN_SIZE <= len4 <= MAX_LENGTH && len4 <= SOCKADDR_IN_SIZE + |rest4|
    requires SOCKADDR_IN6_SIZE <= len6 <= MAX_LENGTH && len6 <= 24 + |rest6|
    ensures var a, after := t.Alloc(n).issued.value, t.Alloc(n).table;
            && len4 <= |SpellV4(a, port, rest4)| && len6 <= |SpellMapped(a, port, flow, rest6)|
            && Decision(after, ReadFakeAddr(Some(SpellV4(a, port, rest4)), len4), proxyConfigured) == RouteByName(n)
            && Decision(after, ReadFakeAddr(Some(SpellMapped(a, port, flow, rest6)), len6), proxyConfigured)
               == RouteByName(n)
            && ReadFakeAddr(Some(SpellV4(a, port, rest4)), len4).port == port
            && ReadFakeAddr(Some(SpellMapped(a, port, flow, rest6)), len6).port == port
  {
    var a := t.Alloc(n).issued.value;
    AllocAnswersTheName(t, n, a);
    SpellingsReadBack(a, port, flow, rest4, rest6, len4, len6);
  }

  /**
   * No misroute at the connect sites: if one address is routed by n and later by
   * another name m, it was retired in between and a whole ring passed before m got it.
   */
  lemma ConnectsNeverMisroute(states: seq<Table>, calls: seq<Call>, addr: AddrRead, i: nat, j: nat,
                              proxyThen: bool, proxyNow: bool, n: string, m: string)
    returns (retired: nat, claimed: nat)
    requires IsRun(states, calls) && i <= j < |states|
    requires Decision(states[i], addr, proxyThen) == RouteByName(n)
    requires Decision(states[j], addr, proxyNow) == RouteByName(m) && m != n
    ensures i <= retired <= claimed < j
    ensures states[retired].Lookup(addr.v4) == Some(n) && states[retired + 1].Lookup(addr.v4) != Some(n)
    ensures calls[claimed] == AllocCall(m)
    ensures states[claimed + 1].allocations >= states[retired + 1].allocations + states[0].quarantine
  {
    hide Step;
    retired, claimed := NoMisroute(states, calls, addr.v4, i, j, n, m);
  }

  /** Until that ring has passed, every connect to the retired address is refused (or, with no proxy, left alone). */
  lemma AgeingAddressIsRefused(states: seq<Table>, calls: seq<Call>, addr: AddrRead, retired: nat, k: nat, proxy: bool)
    requires IsRun(states, calls) && retired < k < |states| && addr.inRange
    requires states[retired].Lookup(addr.v4).Some?
    requires states[retired + 1].Lookup(addr.v4) != states[retired].Lookup(addr.v4)
    requires states[k].allocations < states[retired + 1].allocations + states[0].quarantine
    ensures Decision(states[k], addr, proxy) == if proxy then Refuse else Passthrough
  {
    hide Step;
    SilentWhileAgeing(states, calls, addr.v4, retired, k);
  }

  // ------------------------------------------------------------ the owner

  /** The process-wide owner: one table, every call one critical section. */
  class FakeIpOwner {
    const table: FakeIpTable

    ghost predicate Shaped()
      reads this, table
    {
      table.Shaped()
    }

    ghost function View(): Table
      requires Shaped()
      reads this, table, table.slots, table.marks
    {
      table.View()
    }

    constructor (quarantine: nat)
      ensures Shaped() && fresh(table) && View() == Fresh(quarantine)
    {
      table := new FakeIpTable(NO_OCTETS, quarantine);
    }

    /** The fake for a name in the shape the recogniser produces, port 0. */
    method AllocFor(name: string) returns (r: Option<AddrRead>)
      requires Shaped()
      modifies table, table.slots
      ensures Shaped() && View() == old(View()).Alloc(name).table
      ensures old(View()).Alloc(name).issued.None? ==> r.None?
      ensures old(View()).Alloc(name).issued.Some? ==> r == Some(Classify(old(View()).Alloc(name).issued.value, 0))
    {
      var issued := table.Alloc(name);
      if issued.None? {
        return None;
      }
      return Some(Classify(issued.value, 0));
    }

    method LookupBuffer(name: Option<seq<byte>>, len: int) returns (r: Option<string>)
      requires Shaped() && (name.Some? ==> len <= |name.value|)
      ensures r == View().Lookup(ReadFakeAddr(name, len).v4)
    {
      var addr := ReadFakeAddr(name, len);
      if !addr.inRange {
        return None;
      }
      r := table.Lookup(addr.v4);
    }

    method ExcludeProxy(fake: Octets)
      requires Shaped()
      modifies table, table.slots, table.marks
      ensures Shaped() && View() == old(View()).Exclude(fake)
    {
      table.Exclude(fake);
    }

    method Decide(addr: AddrRead, proxyConfigured: bool) returns (verdict: Verdict)
      requires Shaped()
      ensures verdict == Decision(View(), addr, proxyConfigured)
    {
      if !addr.inRange {
        return Passthrough;
      }
      var row := table.Lookup(addr.v4);
      verdict := ConnectVerdict(addr, row, proxyConfigured);
    }
  }
}
