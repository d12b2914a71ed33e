# Encapsule verification

Dafny 4.11 models of the parts of encapsule that keep state without touching a socket, a
clock or a handle, with proofs of what their comments and tests promise. `dafny verify
dfyconfig.toml` checks the whole project.

Every component has the same shape. A datatype is the component's state as a value and
each call is a function on it. A class holds the same fields as the C++ object, arrays
for fixed arrays, and its methods run the original scans and loops in place; their
contracts say that the fields afterwards spell exactly what the function computes. The
promises are lemmas about those functions: what every call keeps, and what holds over
runs. A run is any sequence of calls with one state per call boundary, from any
well-formed state, so its lemmas quantify over every run and every position in it.

- `FakeIp`, `FakeIpRuns`, `FakeIpRing`, `FakeIpRecency`, `FakeIpPins`, `FakeIpTables`:
  the table that hands out 198.51.100.1 to 198.51.100.254 for names. Addresses never
  change hands within a ring, refusals end within a ring, idle rows never outnumber the
  ring, and the table is a one-to-one map with a recency list.
- `FakeMap`: recognising a fake in a sockaddr buffer, the connect verdict, and the
  owner.
- `UdpAssociations`, `UdpAssociationRuns`, `UdpAssociationTables`: generation-tagged,
  counted UDP associations. References resolve exactly while their association lives.
- `UdpState`, `UdpStateInvariant`, `UdpStateRuns`, `UdpStateSockets`, `UdpStateHistory`,
  `UdpStateCalls`, `UdpStateTables`: 256 socket rows with bounded queues. Datagrams are
  conserved, queues are suffixes of what was accepted, retired socket values wait out a
  bounded ring.
- `BlockingQueue`: items under a mutex and tokens in a channel, as a step system over
  any interleaving. No lost wakeup, exact accounting, and settling.
- `InjectorServer`, `InjectorServerRuns`, `InjectorServerCalls`,
  `InjectorServerObjects`: sessions, kept bootstraps (a list with a map of iterators
  into it) and tokens.
- `Socks5Codec`, `Socks5Datagram`, `Socks5Requests`, `Socks5Wire`, `Socks5Outcomes`,
  `Socks5Client`: the byte layouts of RFC 1928 and RFC 1929, the datagram parser, the
  handshake and the reply reader over a stream.
- `ProxyEndpoint`: the endpoint grammar and its exact inverse printer.
- `Wildcard`: the filename matcher against ordinary glob semantics.

Where the code and its words part:

- `src/common/utils.hpp:98-127` is a glob matcher except for patterns ending in `**`,
  which ask for one character more than a glob does, because the loop over a star in
  mid-pattern never tries the empty suffix. `Wildcard.GlobExactlyWhen` gives the exact
  condition and `Wildcard.TwoStarsMissTheShortest` an input for every such pattern.
- `src/common/queue.hpp:143-146` says size, drops and deliveries always add up to the
  pushes. `cancel()` empties the queue under the lock and adds to the counter after it,
  so the sum is short from the drain of a cancel that stranded something to its count.
  `BlockingQueue.AccountingIsExact` gives the exact condition, no stranded item still
  uncounted, and `BlockingQueue.CancelWindowBreaksTheIdentity` a run that is short.
- `src/injector/server.hpp:552-553` overwrites a session's pid and open flag on every
  accepted hello, so a second valid hello on an open session leaves its registration
  behind. `InjectorServer.HelloKeepsValidExactlyWhen` says exactly which hellos the server
  survives, and runs exclude only the others; the capsule never sends one
  (`src/injectee/client.hpp:231-240`).
- `src/injectee/socks5.hpp:410-457` accepts a NUL inside a name and the builder stops at
  one, so the two are inverse exactly on names without one.
- `src/injectee/socks5.hpp:346-353` cites section 5 of RFC 1928 for the UDP header; the
  layout is that of section 7.

Clocks, ticks and counters are natural numbers: the code relies on 64-bit counters not
wrapping. The `touch_`, `allocations_` and `insertions_` clocks advance as in the code.

## Model

| member | source | states |
|---|---|---|
| FakeIp.SlotRoundTrip | src/injectee/fakeip.hpp:71-89 | the slot of an address and the address of a slot are inverse: rows and issuable addresses correspond one to one |
| FakeIp.StepKeepsValid | src/injectee/fakeip.hpp:337-437 | every call keeps one row a live name, distinct past touches, excluded rows empty, distinct reuse ticks within one ring, and the exclusion count exact |
| FakeIpRing.RingBoundsIdle | src/injectee/fakeip.hpp:371-405 | in every run, once an alloc has found nothing issuable, live names plus one ring length account for the whole capacity in every later state |
| FakeIpRing.AgeingFitsRing | src/injectee/fakeip.hpp:545-563 | with nothing issuable, every idle row is ageing, and there are at most as many as the ring is long (pigeonhole on reuse ticks) |
| FakeIpRing.RowsPartition | src/injectee/fakeip.hpp:448-474 | live rows and idle rows in circulation add up to the advertised capacity |
| FakeIpRing.RefusalsEndWithinARing | src/injectee/fakeip.hpp:364-405 | any streak of refused new names that begins with some row in circulation unpinned is at most one ring long, whatever pins, touches, repeat queries and clock advances are interleaved |
| FakeIpRing.RefusedExactlyWhen | src/injectee/fakeip.hpp:387-404 | a new name is refused if and only if nothing is issuable and eviction cannot help: every name is pinned, or the evicted row has a ring to wait |
| FakeIpRuns.NoMisroute | src/injectee/fakeip.hpp:407-417 | an address that answered n and later answers m was retired in between, m got it by its own alloc, and a whole ring passed from that retirement to that claim |
| FakeIpRuns.SilentWhileAgeing | src/injectee/fakeip.hpp:54-59 | until the ring clock has advanced a whole ring past its retirement, an address answers no name at all |
| FakeIpRuns.ReuseWaitsARing | src/injectee/fakeip.hpp:588-595 | a row that lost its name holds another only after a whole ring of new-name attempts and progress ticks |
| FakeIpRuns.PinnedLeavesOnlyByExclusion | src/injectee/fakeip.hpp:419-430 | a pinned row keeps its name through every call except the exclusion of its own address |
| FakeIpRuns.UnpinUndoesPin | src/injectee/fakeip.hpp:423-439 | a pin and an unpin cancel out on a held address, and neither does anything on one that is not held |
| FakeIpPins.PinCountIsExact | src/injectee/fakeip.hpp:419-439 | over any run an address that still answers the name it was claimed for has exactly as many connects in flight as it was pinned less what was unpinned since, counted from the calls alone |
| FakeIpPins.PinnedKeepsItsName | src/injectee/fakeip.hpp:419-439 | over any run an address whose pins are never all taken back keeps its name, unless it is itself excluded |
| FakeIpPins.PinCountMoves | src/injectee/fakeip.hpp:378-509 | while an address keeps its name, pin and unpin of that very address are the only calls that move its pin count: no touch, repeat query or eviction does |
| FakeIpPins.ClaimStartsUnpinned | src/injectee/fakeip.hpp:577-595 | an address that starts to answer a name starts with nothing in flight |
| FakeIpPins.ExcludedForever | src/injectee/fakeip.hpp:330-347 | over any run an excluded address answers nothing and is never issued again, whether it was held, resting or never used |
| FakeIpPins.ExclusionsMove | src/injectee/fakeip.hpp:337-347 | an exclusion takes exactly its own row out of circulation, and no other call takes or returns one |
| FakeIpPins.ClocksMove | src/injectee/fakeip.hpp:371-405 | the ring clock moves by one for each new name asked for, served or refused, and by what progress reports; the LRU clock by one for each use; nothing else moves them |
| FakeIpPins.FreshIssuesEverything | src/injectee/fakeip.hpp:300-305 | a new table has its ring length and can issue every address at once but the excluded one |
| FakeIpRuns.ProgressDrainsTheRing | src/injectee/fakeip.hpp:497-516 | a ring of progress ticks leaves nothing waiting but excluded addresses |
| FakeIpRecency.LookupIsInjective | src/injectee/fakeip.hpp:407-417 | no two addresses answer the same name |
| FakeIpRecency.AllocIsStable | src/injectee/fakeip.hpp:357-380 | asking again for a held name returns the same address and changes no lookup |
| FakeIpRecency.AllocAnswersTheName | src/injectee/fakeip.hpp:371-405 | the issued address is the one and only address that answers the name afterwards |
| FakeIpRecency.VictimIsFirstUnpinned | src/injectee/fakeip.hpp:565-577 | eviction by smallest touch is eviction of the first unpinned entry of the recency list |
| FakeIpRecency.StepRefinesRecency | src/injectee/fakeip.hpp:371-509 | every call acts on the list of live rows by moving the row it uses to the back and dropping the row it retires, which for a starved alloc is the oldest unpinned one, and on the map of names by emptying that row and writing the allocated name to the row it uses: nothing else changes |
| FakeIpRecency.RunRefinesMapAndList | src/injectee/fakeip.hpp:337-509 | over any run every state has a recency list of its live rows, and each call turns list and map into the next ones by that one move |
| FakeIpRecency.OthersKeepTheirNames | src/injectee/fakeip.hpp:371-509 | an address whose row a call neither retires nor uses answers afterwards what it answered before |
| FakeIpRecency.LookupReadsHeld | src/injectee/fakeip.hpp:410-417 | lookup reads the map of held names, and that map is one to one |
| FakeIpRecency.FreshStandsForNothing | src/injectee/fakeip.hpp:337-347 | a new table, its proxy address excluded, stands for the empty map and the empty list |
| FakeIpTables.FakeIpTable.constructor | src/injectee/fakeip.hpp:300-305 | the new object is a fresh table with the given exclusion applied |
| FakeIpTables.FakeIpTable.FindName | src/injectee/fakeip.hpp:530-537 | the scan finds the row of a name, the lowest one, or none |
| FakeIpTables.FakeIpTable.Claimable | src/injectee/fakeip.hpp:545-554 | not excluded, and never used or past its reuse tick |
| FakeIpTables.FakeIpTable.FindFree | src/injectee/fakeip.hpp:556-563 | the scan finds the lowest issuable row, or none |
| FakeIpTables.FakeIpTable.FindLru | src/injectee/fakeip.hpp:565-577 | the scan finds the least recently touched unpinned name, the lowest row on a tie |
| FakeIpTables.FakeIpTable.Claim | src/injectee/fakeip.hpp:579-586 | one row takes the name, unpinned, at the current touch; nothing else moves |
| FakeIpTables.FakeIpTable.Retire | src/injectee/fakeip.hpp:588-595 | one row loses its name and pins and becomes reusable one ring from now |
| FakeIpTables.FakeIpTable.Exclude | src/injectee/fakeip.hpp:337-347 | the address leaves circulation for good and a name it held is retired, once |
| FakeIpTables.FakeIpTable.Alloc | src/injectee/fakeip.hpp:371-405 | the in-place alloc leaves exactly the table, and answers exactly the address, that the runs are proved about |
| FakeIpTables.FakeIpTable.Attempt | src/injectee/fakeip.hpp:387-404 | a new name takes a free row, else evicts into the ring and looks once more |
| FakeIpTables.FakeIpTable.OwnedSlot | src/injectee/fakeip.hpp:519-525 | the row of an address that currently holds a name |
| FakeIpTables.FakeIpTable.Lookup | src/injectee/fakeip.hpp:411-417 | the name an address currently holds, and no touch |
| FakeIpTables.FakeIpTable.Pin | src/injectee/fakeip.hpp:423-430 | one more pin on a held address, false and no change otherwise |
| FakeIpTables.FakeIpTable.Unpin | src/injectee/fakeip.hpp:432-439 | one pin fewer, and true exactly when something changed |
| FakeIpTables.FakeIpTable.NoteTouched | src/injectee/fakeip.hpp:502-509 | the row becomes the most recent one, false and no change for an address not held |
| FakeIpTables.FakeIpTable.NoteProgress | src/injectee/fakeip.hpp:513-516 | the ring clock advances by the ticks and is reported |
| FakeIpTables.FakeIpTable.LiveNames | src/injectee/fakeip.hpp:448-456 | the number of rows holding a name |
| FakeIpTables.FakeIpTable.Quarantined | src/injectee/fakeip.hpp:458-466 | the number of empty rows that cannot be issued |
| FakeMap.ReadsOnlyThePromisedBytes | src/injectee/fake_map.hpp:179-232 | two buffers that agree on the advertised length are read alike: nothing past it is looked at |
| FakeMap.SpellingsReadBack | src/injectee/fake_map.hpp:145-232 | a sockaddr_in and a v4-mapped sockaddr_in6 of one address both read back as it, at every length a caller may advertise |
| FakeMap.IssuableIsASlot | src/injectee/fake_map.hpp:114-168 | issuable means in range and neither .0 nor .255, and then the address is that of its slot |
| FakeMap.ReadExactlyWhenSpelled | src/injectee/fake_map.hpp:179-232 | a buffer is read as an address and port if and only if it starts with one of their two spellings and the advertised length covers that sockaddr and no more than a sockaddr_storage |
| FakeMap.PolicyExactlyWhen | src/injectee/fake_map.hpp:319-356 | the policy by cases, for any answer: routed by a nonempty name, refused with a proxy and none, else left alone; an empty name counts as none |
| FakeMap.VerdictExactlyWhen | src/injectee/fake_map.hpp:607-629 | a connect is refused if and only if a proxy is set and the address is in the range and answers nothing; left alone if and only if it is out of the range, or answers nothing with no proxy |
| FakeMap.ForeignIsLeftAlone | src/injectee/fake_map.hpp:319-343 | a buffer that spells no address of 198.51.100.0/24, unreadable ones included, passes through with or without a proxy |
| FakeMap.FakeIsRoutedOrRefused | src/injectee/fake_map.hpp:327-355 | a buffer that spells one, in either spelling, is routed by what the table answers or refused, while a proxy is set |
| FakeMap.RoutedExactlyWhenHeld | src/injectee/fake_map.hpp:319-356 | a connect is routed by a name if and only if the buffer spells an address the table holds for that name |
| FakeMap.RangeNeverGoesDirect | src/injectee/fake_map.hpp:327-355 | with a proxy configured an address of the range never passes through |
| FakeMap.ResolvedNameIsRouted | src/injectee/fake_map.hpp:487-494 | the address just allocated for a name routes by that name, port kept, in both spellings |
| FakeMap.ConnectsNeverMisroute | src/injectee/fake_map.hpp:603-629 | whole-run no-misroute stated of connect verdicts |
| FakeMap.AgeingAddressIsRefused | src/injectee/fake_map.hpp:327-355 | until a ring has passed, a connect to a retired address is refused, or left alone when there is no proxy |
| FakeMap.FakeIpOwner.AllocFor | src/injectee/fake_map.hpp:487-494 | the owner answers the allocated address in the shape the recogniser produces |
| FakeMap.FakeIpOwner.LookupBuffer | src/injectee/fake_map.hpp:508-514 | the name held for the address a buffer spells |
| FakeMap.FakeIpOwner.ExcludeProxy | src/injectee/fake_map.hpp:563-566 | the owner takes the proxy address out of circulation |
| FakeMap.FakeIpOwner.Decide | src/injectee/fake_map.hpp:607-629 | the verdict computed in place is the policy applied to the current table |
| UdpAssociationRuns.ResolvesExactlyWhileAlive | src/injectee/udp_state.hpp:155-168 | over any run a reference resolves at a later state if and only if no call in between ended its association |
| UdpAssociationRuns.EndsOnceCreatedOnce | src/injectee/udp_state.hpp:296-308 | an association ends at most once and its reference is never issued again |
| UdpAssociationRuns.ResolvesToTheSame | src/injectee/udp_state.hpp:204-206 | whenever it resolves, a reference stands for the same control socket, relay and bound address |
| UdpAssociationRuns.CreationIsFresh | src/injectee/udp_state.hpp:186-199 | only open creates, it answers the reference it created, and that generation was never issued |
| UdpAssociationRuns.EndingHandsBack | src/injectee/udp_state.hpp:226-267 | only release and reap_idle end an association, and they hand back its record: a release at its last hold, a reap only unheld |
| UdpAssociationRuns.NothingIsLost | src/injectee/udp_state.hpp:170-173 | over any run created == live + handed back |
| UdpAssociationRuns.RefcountIsExact | src/injectee/udp_state.hpp:215-246 | while an association lives its count is acquires minus releases since it was created |
| UdpAssociationRuns.ControlSocketsAreUnique | src/injectee/udp_state.hpp:176-185 | two live references never share a control socket |
| UdpAssociationRuns.OpeningAgainIsTheSame | src/injectee/udp_state.hpp:176-185 | opening a control socket again answers its reference and only refreshes its age |
| UdpAssociationRuns.TouchBuysTheIdleLimit | src/injectee/udp_state.hpp:248-267 | a touched association survives a reap if and only if it comes before 30 ticks or the association is held |
| UdpAssociationRuns.OpenCreatesExactlyWhen | src/injectee/udp_state.hpp:178-202 | open creates if and only if the control socket has no association and one of 32 rows is free, fails if and only if there is neither, and otherwise answers a reference to that socket |
| UdpAssociationRuns.EndsExactlyWhen | src/injectee/udp_state.hpp:230-267 | an association ends if and only if its last hold is released or a reap finds it unheld and untouched for 30 ticks |
| UdpAssociationRuns.AgeMovesExactlyWhen | src/injectee/udp_state.hpp:178-246 | the age of an association is renewed by its own touch, release and repeated open, and by nothing else |
| UdpAssociationRuns.StaleReferencesAreRefused | src/injectee/udp_state.hpp:208-246 | touch, acquire and release refuse exactly the references that do not resolve, and then change nothing and hand nothing back |
| UdpAssociations.CallKeepsValid | src/injectee/udp_state.hpp:178-308 | every call keeps the live count exact and control sockets unique |
| UdpAssociations.IdleRecordsExact | src/injectee/udp_state.hpp:251-267 | a record is handed back by reap_idle if and only if some idle row holds it |
| UdpAssociationTables.UdpAssociationTable.constructor | src/injectee/udp_state.hpp:310-311 | an empty table |
| UdpAssociationTables.UdpAssociationTable.Open | src/injectee/udp_state.hpp:178-202 | the two scans find the control socket, else a free row, else nothing, and write exactly that row |
| UdpAssociationTables.UdpAssociationTable.RowOf | src/injectee/udp_state.hpp:292-301 | a slot and generation resolve to a row exactly while that generation fills it |
| UdpAssociationTables.UdpAssociationTable.Get | src/injectee/udp_state.hpp:204-206 | the record behind a reference |
| UdpAssociationTables.UdpAssociationTable.Touch | src/injectee/udp_state.hpp:208-213 | the age of one association, and nothing else |
| UdpAssociationTables.UdpAssociationTable.Acquire | src/injectee/udp_state.hpp:217-224 | one more hold, refused for a reference that does not resolve |
| UdpAssociationTables.UdpAssociationTable.CloseRow | src/injectee/udp_state.hpp:303-308 | the row is emptied and its generation kept |
| UdpAssociationTables.UdpAssociationTable.Release | src/injectee/udp_state.hpp:230-246 | one hold fewer, or the record of the association it ended |
| UdpAssociationTables.UdpAssociationTable.ReapIdle | src/injectee/udp_state.hpp:251-267 | the scan closes exactly the idle rows and returns their records in row order |
| UdpState.TrimIsShortest | src/injectee/udp_state.hpp:585-592 | a push throws away exactly the shortest prefix after which the newcomer fits both budgets |
| UdpStateInvariant.CallKeepsValid | src/injectee/udp_state.hpp:367-671 | every call keeps byte counters exact, both budgets, one row a socket, the retired ring well formed and its amortised bound |
| UdpStateRuns.RingIsBoundedForever | src/injectee/udp_state.hpp:651-671 | retired keys plus rows in use never exceed 511 in any reachable state |
| UdpStateInvariant.RingIsBounded | src/injectee/udp_state.hpp:660-671 | the bound of 511 from the amortised one: keys retired since clock j plus live rows never exceed 256 + insertions - j |
| UdpStateRuns.DatagramsAreConserved | src/injectee/udp_state.hpp:571-618 | over any run every datagram pushed was popped, dropped, discarded or refused, or is still queued |
| UdpStateHistory.QueueIsASuffix | src/injectee/udp_state.hpp:427-449 | each queue is a contiguous suffix of what was accepted for that socket and direction since its row was created |
| UdpStateHistory.RetiredValueWaits | src/injectee/udp_state.hpp:408-425 | over any run a retired socket value has no row until 256 further insertion attempts |
| UdpStateHistory.NewRowIsBlank | src/injectee/udp_state.hpp:391-395 | a socket value without a row gets a blank one: empty queues but for the datagram of the push that opened it, no pins |
| UdpStateCalls.OpenGrantsExactlyWhen | src/injectee/udp_state.hpp:367-396 | a socket without a row gets one, wholly blank, if and only if no ring runs for its own value and one of 256 rows is empty or unpinned; otherwise no row changes |
| UdpStateCalls.RowAfterExactlyWhen | src/injectee/udp_state.hpp:451-597 | pushes and notes find or make a row in exactly those cases |
| UdpStateCalls.RetiredValueReturns | src/injectee/udp_state.hpp:660-671 | the other half of the ring: a value not retired again is admissible once 255 insertion attempts have been made |
| UdpStateCalls.QueueAfter | src/injectee/udp_state.hpp:571-618 | after a push its queue is the longest newest stretch the newcomer fits behind, and the newcomer; after a pop the rest; after an oversized push or any other call what it was |
| UdpStateCalls.NotesWriteTheirFact | src/injectee/udp_state.hpp:451-481 | each note writes its own fact, no other, and costs no datagram and no pin; no other call writes a fact |
| UdpStateCalls.AgeIsTheLastCall | src/injectee/udp_state.hpp:367-374 | every call but pin and unpin stamps its row with its tick, those two leave the age alone |
| UdpStateCalls.PinnedKeepsItsRow | src/injectee/udp_state.hpp:483-501 | over any run a live row is pinned exactly as often as pin was called less unpin, and while that is above none only its own retirement takes the row |
| UdpStateCalls.OneRowIsTaken | src/injectee/udp_state.hpp:376-425 | a call takes at most one row, counts its datagrams as discarded, and an eviction always buys the caller a row |
| UdpStateCalls.DiscardsAreLostRows | src/injectee/udp_state.hpp:384-425 | the discard counter moves only when a row is taken |
| UdpStateCalls.PushAnswersExactly | src/injectee/udp_state.hpp:571-597 | a push is refused without a row or when oversized, else answers by whether something had to go, and the drop counter moves by exactly what did |
| UdpStateCalls.AnswersAreTrue | src/injectee/udp_state.hpp:411-501 | retire and pin succeed exactly on a socket with a row, unpin on a pinned one, pop when something was queued; a failed one changes nothing |
| UdpStateCalls.CountersMoveExactly | src/injectee/udp_state.hpp:376-380 | the insertion clock counts the openings that found no row, the refusal counter the pushes refused |
| UdpStateHistory.BudgetsHoldForever | src/injectee/udp_state.hpp:62-66 | in every reachable state both queues of every socket hold at most 64 datagrams and 1 MiB, byte counters exact |
| UdpStateHistory.PopAnswersTheOldest | src/injectee/udp_state.hpp:599-618 | a pop answers the head of its queue, or nothing |
| UdpStateHistory.PushReportsItsLosses | src/injectee/udp_state.hpp:345-352 | dropped_oldest and refused are reported exactly when their counters move |
| UdpStateHistory.TakenIsNotRefused | src/injectee/udp_state.hpp:573-582 | a push that finds or makes a row is refused exactly when its datagram is oversized |
| UdpStateHistory.DecisionsStick | src/injectee/udp_state.hpp:468-481 | over any run a socket once marked taken over or permanently unmanaged stays so at every later state up to which its row has lived |
| UdpStateSockets.CallIsExplained | src/injectee/udp_state.hpp:367-506 | seen from any one socket, a call changes its own socket by its effect, from blank if it had no row, and another only by evicting it unpinned |
| UdpStateSockets.PinnedIsNeverEvicted | src/injectee/udp_state.hpp:483-501 | a pinned socket keeps its row and queues through every call made for another |
| UdpStateSockets.EvictsTheLeastRecentlyUsed | src/injectee/udp_state.hpp:631-649 | a call evicts only from a full table, and only a socket no unpinned one was used before |
| UdpStateTables.UdpStateTable.constructor | src/injectee/udp_state.hpp:356-357 | an empty table |
| UdpStateTables.UdpStateTable.Find | src/injectee/udp_state.hpp:620-629 | the row a socket already has |
| UdpStateTables.UdpStateTable.PruneQuarantine | src/injectee/udp_state.hpp:660-671 | exactly the keys whose ring still runs, in order |
| UdpStateTables.UdpStateTable.IsQuarantined | src/injectee/udp_state.hpp:651-658 | some key of this socket is still in its ring |
| UdpStateTables.UdpStateTable.FindSlotFor | src/injectee/udp_state.hpp:631-649 | the first empty row, or the eviction victim of a full table |
| UdpStateTables.UdpStateTable.Open | src/injectee/udp_state.hpp:367-396 | touch the row, or advance the insertion clock, prune and admit |
| UdpStateTables.UdpStateTable.Admit | src/injectee/udp_state.hpp:376-395 | refuse a quarantined value or a table with no slot, else install a blank row and count what it evicts |
| UdpStateTables.UdpStateTable.Retire | src/injectee/udp_state.hpp:411-425 | the row goes, its datagrams are counted discarded, its value enters the ring |
| UdpStateTables.UdpStateTable.Push | src/injectee/udp_state.hpp:571-582 | open, refuse, or enqueue |
| UdpStateTables.UdpStateTable.Enqueue | src/injectee/udp_state.hpp:578-597 | the erase loop makes room from the front and the newcomer is appended, every loss counted |
| UdpStateTables.UdpStateTable.Pop | src/injectee/udp_state.hpp:599-618 | the head of the queue leaves and the byte counter follows; a socket without a row is not given one |
| UdpStateTables.UdpStateTable.Annotate | src/injectee/udp_state.hpp:451-481 | open, then one fact about the socket is written down |
| UdpStateTables.UdpStateTable.Pin | src/injectee/udp_state.hpp:485-492 | one more pin on the row of a socket |
| UdpStateTables.UdpStateTable.Unpin | src/injectee/udp_state.hpp:494-501 | one pin fewer, never below none |
| BlockingQueue.NoLostWakeup | src/common/queue.hpp:69-111 | in every interleaving, with no cancel half done and no token in transit, a pop is parked only on an empty queue |
| BlockingQueue.AccountingIsExact | src/common/queue.hpp:143-152 | pushed == delivered + drops + size if and only if no drained item is still uncounted, the shortfall being exactly those; the queue is a suffix of everything pushed and within its capacity |
| BlockingQueue.CancelWindowBreaksTheIdentity | src/common/queue.hpp:127-146 | a reachable state where delivered + drops + size is less than pushed, so the identity needs its condition |
| BlockingQueue.FirstInFirstOut | src/common/queue.hpp:94-111 | items leave in push order, each once |
| BlockingQueue.PushDropsExactlyWhenFull | src/common/queue.hpp:69-79 | over any run a push throws an item away if and only if the queue is bounded and full, and then the oldest; otherwise the queue grows by the newcomer and owes a token |
| BlockingQueue.OnlyOverflowAndCancelDrop | src/common/queue.hpp:69-141 | items leave and the drop counter moves only by a push into a full queue, the take of the front item, a drain and its count |
| BlockingQueue.PopsAreAccountedFor | src/common/queue.hpp:94-111 | over any run every pop called is waiting, parked, holding a token, served, or was woken by a cancel |
| BlockingQueue.CancelWakesEveryPop | src/common/queue.hpp:113-128 | cancelling the channel wakes every parked pop and aborts every waiting send, spares buffered tokens and items, and no other step aborts a pop |
| BlockingQueue.NoSpuriousWakeup | src/common/queue.hpp:52-56 | before any cancel every token has an item behind it, and a bounded queue never owns more tokens than its capacity |
| BlockingQueue.IdleWakeupsArePaidFor | src/common/queue.hpp:88-93 | over every run, cancels included, tokens about plus wakeups that found nothing never exceed items queued plus items cancels drained, and a wakeup finds nothing exactly when a pop takes from an empty queue |
| BlockingQueue.QueueSettles | src/common/queue.hpp:88-111 | no stretch of internal steps is longer than the work at its start, and where none is possible every pop has been served or the queue is empty |
| BlockingQueue.CancelWindowSuspendsThePromise | src/common/queue.hpp:113-141 | a reachable state inside a cancel where a pop is parked on an item: the exception in the promise is needed |
| BlockingQueue.StepKeepsTokens | src/common/queue.hpp:69-141 | every step keeps tokens at least the queued items outside a cancel, exactly as many before any cancel, and the channel consistent |
| BlockingQueue.StepKeepsAccounts | src/common/queue.hpp:69-141 | every step keeps the history equal to what left followed by what is queued, and the drop counter exact |
| BlockingQueue.GuardedQueue.constructor | src/common/queue.hpp:61-62 | an empty queue |
| BlockingQueue.GuardedQueue.PushLocked | src/common/queue.hpp:69-79 | the critical section of push is the atomic push step, and says whether a token is owed |
| BlockingQueue.GuardedQueue.TakeLocked | src/common/queue.hpp:98-109 | the critical section of pop is the atomic take step: the front item, or back to waiting |
| BlockingQueue.GuardedQueue.DrainLocked | src/common/queue.hpp:130-137 | the drain loop empties the queue and counts what it stranded |
| InjectorServerRuns.LostPidIsWelcomeBack | src/injector/server.hpp:149-174 | over any run a pid lost, by a dropped connection or a refused hello on its open one, is accepted again with its old token unless it was injected anew, un-injected, or at least 4096 distinct other pids were lost since |
| InjectorServerRuns.OnlyUninjectForgets | src/injector/server.hpp:441-458 | a registered pid keeps its token through a call if and only if the call is not its own un-inject |
| InjectorServerRuns.RegisteredOrKept | src/injector/server.hpp:347-355 | in every reachable state no pid is both registered and kept, every registered pid has a token, tokens and mappings agree, and at most 4096 are kept |
| InjectorServerRuns.HelloRegistersExactlyWhen | src/injector/server.hpp:535-559 | a hello opens its session if and only if its token is right and the pid is free; otherwise it moves nothing, unless it was refused on an open session, which is then lost and its pid kept with its token |
| InjectorServerRuns.InjectGrantsExactlyWhenOk | src/injector/server.hpp:320-345 | inject reports success exactly when its new token is honoured afterwards, and a failed load leaves no bootstrap |
| InjectorServerCalls.VerdictExactlyWhen | src/injector/server.hpp:320-345 | every verdict with its exact condition, in the order of precedence of the source; a refused or unpublished injection touches nothing |
| InjectorServerCalls.RegistrationMoves | src/injector/server.hpp:347-355 | a pid is registered by its own accepted hello and unregistered by the loss of its session or its own un-inject, and by nothing else |
| InjectorServerCalls.SessionsMove | src/injector/server.hpp:535-593 | sessions come from connections, closed, and are open exactly from an accepted hello that found its pid free to the loss or the un-inject |
| InjectorServerCalls.KeptMoves | src/injector/server.hpp:172-193 | a pid is kept exactly from its loss until it registers again, is attached anew or is evicted |
| InjectorServerCalls.TokenMoves | src/injector/injector.hpp:101-147 | a pid's token changes by a publish for it and ends by a failed load, its un-inject or its eviction, and by nothing else |
| InjectorServerCalls.EvictedIsForgotten | src/injector/server.hpp:450-454 | a pid evicted from a full record has neither token nor mapping afterwards |
| InjectorServerCalls.OnlyTheRecordedTokenMatches | src/injector/injector.hpp:128-147 | exactly the recorded token is honoured |
| InjectorServerCalls.HonouredTokenWasIssued | src/injector/server.hpp:320-345 | over any run of a new server a token is honoured only if an injection for that pid published and loaded it and nothing took it back since |
| InjectorServerCalls.NoTokenIsStranded | src/injector/server.hpp:441-458 | over any run of a new server whoever has a token is registered, kept for a return, or attached and not registered since |
| InjectorServerCalls.StartIsForGood | src/injector/server.hpp:288-305 | the server is started by start alone and stays so |
| InjectorServerRuns.CloseRetires | src/injector/server.hpp:460-472 | an un-inject ends the registration, the token and the claim to return |
| InjectorServerRuns.SecondHelloStrands | src/injector/server.hpp:552-553 | the witness: a second hello with its own token on a registered session strands the registration, and losing the session then unregisters nothing |
| InjectorServer.CallKeepsValid | src/injector/server.hpp:288-594 | every call keeps registrations and open sessions in one-to-one relation and the records consistent |
| InjectorServer.HelloKeepsValidExactlyWhen | src/injector/server.hpp:535-593 | a hello on an existing connection keeps the invariant if and only if it does not present a valid token on a session already open |
| InjectorServer.FirstHelloIsAllowed | src/injectee/client.hpp:231-240 | the first hello of a connection is always one the server survives, so one hello a connection is enough |
| InjectorServer.KeepEvictsTheOldest | src/injector/server.hpp:172-186 | keep gives up at most one pid, the oldest of the others, exactly when the record was full of others, and never the one just kept |
| InjectorServerObjects.ErasedIsWithout | src/injector/server.hpp:202-209 | erasing the node an iterator denotes removes exactly that pid from the sequence |
| InjectorServerObjects.KeptBootstraps.constructor | src/injector/server.hpp:168-170 | an empty record |
| InjectorServerObjects.KeptBootstraps.EraseLocked | src/injector/server.hpp:202-209 | the pid leaves list and index together, the rest in order |
| InjectorServerObjects.KeptBootstraps.Keep | src/injector/server.hpp:174-186 | list and index agree afterwards and spell the record moved to the back, the overflow answered |
| InjectorServerObjects.KeptBootstraps.Drop | src/injector/server.hpp:190-193 | the pid leaves the record |
| InjectorServerObjects.ControlServer.constructor | src/injector/server.hpp:288-305 | nothing registered, kept or published, and no port |
| InjectorServerObjects.ControlServer.Inject | src/injector/server.hpp:320-345 | the state and the verdict of one injection, refused ones included |
| InjectorServerObjects.ControlServer.Open | src/injector/server.hpp:347-355 | register and drop from the record, unless already registered |
| InjectorServerObjects.ControlServer.Remove | src/injector/server.hpp:445-458 | forget on retire, record and maybe evict on loss, unregister either way |
| InjectorServerObjects.ControlServer.Stop | src/injector/server.hpp:576-593 | only a session that finds itself open is removed |
| InjectorServerObjects.ControlServer.Close | src/injector/server.hpp:460-472 | the registered session is stopped as retired |
| InjectorServerObjects.ControlServer.Hello | src/injector/server.hpp:535-559 | the token decides; then register and remember whether it took |
| InjectorServerObjects.TokenStore.Record | src/injector/injector.hpp:205-214 | token and mapping are written together |
| InjectorServerObjects.TokenStore.ForgetToken | src/injector/injector.hpp:101-105 | token and mapping are erased together |
| InjectorServerObjects.TokenStore.ForgetBootstrap | src/injector/injector.hpp:113-124 | only the bootstrap still carrying this token is erased, and it says whether it did |
| InjectorServerObjects.TokenStore.TokenMatches | src/injector/injector.hpp:128-147 | true exactly for the stored octets of that pid |
| Socks5Datagram.BuiltHeaderParses | src/injectee/socks5.hpp:361-457 | a built header followed by any payload parses to the same fields and size exactly when it is unfragmented and its name at most 16 octets, and is refused otherwise |
| Socks5Datagram.CutHeaderIsRefused | src/injectee/socks5.hpp:394-446 | every strict prefix of a built header is refused |
| Socks5Datagram.AcceptedHeaderRebuilds | src/injectee/socks5.hpp:381-457 | an accepted header is rebuilt octet for octet but for RSV if and only if its name carries no NUL |
| Socks5Datagram.ParsedIsLayout | src/injectee/socks5.hpp:410-457 | whatever is accepted starts with a whole header laid out for the fields that were read |
| Socks5Datagram.LayoutParses | src/injectee/socks5.hpp:394-457 | a whole header parses whatever its RSV octets say |
| Socks5Wire.HandshakeSucceedsExactlyWhen | src/injectee/socks5.hpp:552-615 | for every server stream and every failing send, success if and only if {5,0}, or {5,2,1,0} with a login offered that fits, and the stream is left right behind |
| Socks5Wire.HandshakeTranscript | src/injectee/socks5.hpp:552-615 | the greeting goes first, the login only after {5,2} to an offer of it, and nothing else is sent |
| Socks5Wire.LoginSucceedsExactlyWhen | src/injectee/socks5.hpp:587-614 | the subnegotiation succeeds if and only if the frame fits, goes out and is answered {1,0} |
| Socks5Wire.ReaderStaysAligned | src/injectee/socks5.hpp:641-720 | any granted reply followed by anything is read as what it states, consuming exactly itself |
| Socks5Wire.GrantedMeansStated | src/injectee/socks5.hpp:641-720 | a reply counts as granted only if the stream began with one stating exactly what was returned |
| Socks5Wire.CutReplyIsNeverGranted | src/injectee/socks5.hpp:643-686 | a granted reply cut anywhere before end of stream is a protocol error or truncated, never granted |
| Socks5Wire.RepliesAreReadInOrder | src/injectee/socks5.hpp:617-640 | any sequence of granted replies is read back in order and what follows is left alone |
| Socks5Wire.SuccessMeansGranted | src/injectee/socks5.hpp:729-747 | a request answers success and leaves a given rest if and only if its frame went out and the server's octets are a whole numeric grant followed by that rest |
| Socks5Wire.AssociateAsksOnlyWhenAuthenticated | src/injectee/socks5.hpp:798-831 | the CMD 3 request goes out only after the handshake succeeded, right after it |
| Socks5Wire.AssociateSucceedsExactlyWhen | src/injectee/socks5.hpp:798-831 | a relay b is handed over and a given rest left if and only if b is numeric and the server's octets are {5,0} then a whole grant of b then that rest with two sends through, or {5,2,1,0} then the same with three sends through and a login offered that fits |
| Socks5Outcomes.RequestAnswersExactly | src/injectee/socks5.hpp:729-747 | every answer of a request: 4 when nothing could be sent, the REP octet of a refusal, 0 for a whole numeric grant, 4 for everything else |
| Socks5Outcomes.RefusalIsHandedOn | src/injectee/socks5.hpp:743-745 | a refusal {5, REP, RSV, ATYP} is answered with its REP and the rest of the stream left unread |
| Socks5Outcomes.RequestTranscript | src/injectee/socks5.hpp:729-737 | a request that can be sent is sent, once and before anything is read, and nothing else is |
| Socks5Outcomes.RefusedExactlyWhen | src/injectee/socks5.hpp:643-656 | a reply is a refusal if and only if four octets came, version 5 and a REP other than 0, and it costs those four |
| Socks5Outcomes.TruncatedExactlyWhen | src/injectee/socks5.hpp:658-687 | a reply is truncated if and only if the stream is a granted one cut inside its own address or port |
| Socks5Outcomes.CutReplyVerdict | src/injectee/socks5.hpp:643-687 | a granted reply cut short is truncated once its address was promised and a protocol error before |
| Socks5Outcomes.GreetingOffersTheLogin | src/injectee/socks5.hpp:552-575 | the first frame is {5,2,2,0} when there is a username or a password, {5,1,0} when there is neither |
| Socks5Outcomes.SuccessfulHandshakeLog | src/injectee/socks5.hpp:552-615 | everything a successful handshake sent and read, octet for octet and in order |
| Socks5Outcomes.FrameCarriesTheHint | src/injectee/socks5.hpp:798-821 | the ASSOCIATE frame states command 3 and the address and port of the hint, or 0.0.0.0:0 for a family it cannot carry |
| Socks5Outcomes.AssociateTranscript | src/injectee/socks5.hpp:798-831 | after a handshake that went through the request is sent, once and next, and then the reply is only read |
| Socks5Outcomes.RefusedLoginIsNeverDowngraded | src/injectee/socks5.hpp:804-809 | a failed handshake is reported as refused with REP 4 and nothing is asked for |
| Socks5Outcomes.AssociateAnswersExactly | src/injectee/socks5.hpp:811-831 | verdict and REP of an ASSOCIATE for every reply: the REP the relay stated, 4 when it stated none, a protocol error when the request could not go out |
| Socks5Requests.RequestAndHeaderAgree | src/injectee/socks5.hpp:138-178 | a request and a datagram header for one destination agree on every octet from ATYP on |
| Socks5Requests.LoginReadsBack | src/injectee/socks5.hpp:320-344 | a server following RFC 1929 reads exactly the login back, and there is no frame exactly when it does not fit |
| Socks5Requests.GreetingReadsBack | src/injectee/socks5.hpp:122-136 | a server reads exactly the method list back for 1 to 255 methods, and there is no greeting for any other list |
| Socks5Requests.IpAddrRequestExactlyWhen | src/injectee/socks5.hpp:280-318 | an IpAddr message gives a request if and only if it has a port and an IPv4 address, else 16 IPv6 octets, else an encodable name; and what numeric ones state |
| Socks5Requests.SpellingsOfADestinationAgree | src/injectee/socks5.hpp:280-306 | a sockaddr and an IpAddr message of one numeric destination give the same request |
| Socks5Requests.NameRequestCarriesTheText | src/injectee/socks5.hpp:307-317 | a name request is built exactly for a name of 1 to 255 octets not starting with NUL, and carries a NUL-free one whole |
| Socks5Codec.WriteAtypAddr | src/injectee/socks5.hpp:148-178 | the octets from the ATYP on, or nothing written at all, a missing destination included |
| Socks5Codec.WritePort | src/injectee/socks5.hpp:182-185 | the port, most significant octet first |
| Socks5Codec.BuildRequestCmd | src/injectee/socks5.hpp:201-219 | the buffer holds the whole request and is otherwise untouched, or wholly untouched on 0 |
| Socks5Codec.BuildUdpHeader | src/injectee/socks5.hpp:361-379 | the buffer holds the whole header and is otherwise untouched, or wholly untouched on 0 |
| Socks5Codec.BuildGreeting | src/injectee/socks5.hpp:122-136 | the greeting for 1 to 255 methods in a buffer of n + 2 octets, nothing otherwise, a missing list or buffer included |
| Socks5Codec.BuildAuth | src/injectee/socks5.hpp:326-344 | the login frame written through a moving pointer, nothing when a credential is over 255 octets or there is no buffer |
| Socks5Client.Connection.Handshake | src/injectee/socks5.hpp:552-615 | the conversation in place is the one the transcript results are about |
| Socks5Client.Connection.Login | src/injectee/socks5.hpp:587-614 | the login frame is built, sent and its answer judged |
| Socks5Client.Connection.ReadReply | src/injectee/socks5.hpp:641-720 | four octets first, then what their ATYP demands, consumed exactly so |
| Socks5Client.Connection.RequestEx | src/injectee/socks5.hpp:729-747 | send, read, answer a REP octet |
| Socks5Client.Connection.BuildFromSockaddr | src/injectee/socks5.hpp:249-267 | request octets for an IPv4 or IPv6 sockaddr, none for another family |
| Socks5Client.Connection.Associate | src/injectee/socks5.hpp:798-831 | handshake, request, reply, with an unusable hint replaced by 0.0.0.0:0 |
| ProxyEndpoint.ParsesExactlyTheGrammar | src/common/utils.hpp:163-299 | a string parses to an endpoint if and only if it is one of the spellings of it: optional userinfo, brackets or not, any digits of the port |
| ProxyEndpoint.PrintThenParse | src/common/utils.hpp:163-204 | parsing the canonical printing of a well-formed endpoint gives it back |
| ProxyEndpoint.AcceptedExactlyWhenWellFormed | src/common/utils.hpp:193-204 | the endpoints some string parses to are exactly the well-formed ones |
| ProxyEndpoint.JoinedSplits | src/common/utils.hpp:174-219 | splitting at the last @ and joining are inverse exactly while the authority holds none |
| ProxyEndpoint.UserinfoStates | src/common/utils.hpp:269-296 | a userinfo is a name, or a name, the first colon and a password: neither over 255, no empty password, nothing without a name |
| ProxyEndpoint.PortTextExactlyWhen | src/common/utils.hpp:252-267 | port texts are exactly the decimal spellings of 1 to 65535 padded with zeros to at most five digits |
| ProxyEndpoint.ParseProxyUrl | src/common/utils.hpp:212-299 | the method computes the parse the grammar results are about |
| ProxyEndpoint.ParsePort | src/common/utils.hpp:252-267 | the digit loop accepts exactly one to five digits of a number in 1..65535 |
| ProxyEndpoint.FindAuthority | src/common/utils.hpp:221-240 | host and port text, by the closing bracket or the last colon |
| Wildcard.WildcardMatch | src/common/utils.hpp:98-127 | the two-pointer loop with its recursion decides glob matching of the effective pattern |
| Wildcard.GlobExactlyWhen | src/common/utils.hpp:98-127 | the matcher agrees with ordinary glob on all strings if and only if the pattern does not end in two stars |
| Wildcard.MatcherIsGlob | src/common/utils.hpp:98-127 | for every pattern not ending in two stars the matcher is the glob |
| Wildcard.TwoStarsMissTheShortest | src/common/utils.hpp:106-112 | a pattern ending in two stars misses the shortest string the glob matches |
| Wildcard.MidStarSkipsEmpty | src/common/utils.hpp:106-112 | trying every suffix but the empty one decides the effective pattern of a star in mid-pattern |
| Wildcard.EmptyNeedsStars | src/common/utils.hpp:106-112 | a pattern matches the empty string if and only if it is stars alone |
| Wildcard.MatcherIgnoresCaseAndSlashes | src/common/utils.hpp:98-127 | the matcher sees neither ASCII case nor which slash was written, in pattern or string |
| Wildcard.PlainMatchesItself | src/common/utils.hpp:98-127 | a pattern without wildcards matches exactly the strings that differ from it in ASCII case and slashes only |
| Wildcard.QuestionTakesOne | src/common/utils.hpp:98-127 | a question mark takes exactly one character, a slash included |

## Left out

- Mutexes of `fake_ip_owner`, `injector_clients` and `kept_bootstraps`: each locked method is one atomic step, which is what the lock makes of it.
- FakeMap.FakeIpOwner.Decide: is stated of an already read buffer; the buffer form is the same call on what the recogniser returned, and `fake_connect_verdict` on borrowed views is not separate from it.
- `no_fake_name` and its string rules, the v4-mapped and 32-bit conversions, and the plain counters of both tables: easy members.
- `own`, `unown` and `owns` of the UDP table: a plain list with its three operations.
- `udp_endpoint_decode` and `udp_endpoint_as_v4`: endpoints are carried as opaque values, because nothing in the tables looks inside one.
- UdpStateTables.UdpStateTable.Annotate: stands for `set_peer`, `set_type`, `mark_takeover` and `mark_permanently_unmanaged`, which open the row and write one field each.
- The `generation` member of `udp_association`, which no code writes or reads; the generation that matters is the row's.
- Pointers into rows: `open` and `find` answer a row index, so holding a pointer across an eviction is not modelled.
- asio: the channel is the step system in `BlockingQueue` (a send reaches a parked receive, the buffer, or waits; a receive takes a buffered token, a waiting send's, or parks; cancel aborts waiting sends and parked receives only). Thread safety of the channel itself and memory orders are not modelled.
- BlockingQueue.GuardedQueue.DrainLocked: covers the lock scope of `cancel()`; adding the stranded count to the drop counter afterwards is a step of the system, not part of this method.
- Win32 halves of an injection: whether a publish happened, its token, whether the load succeeded and whether the capsule was resident arrive as a value.
- InjectorServer.CallKeepsValid: each server call is one step, so an `inject` racing another `inject` or a hello inside its check-then-act window, which the source leaves open, is not covered.
- Session objects: a session is an identifier with its three facts, held in a map; sockets, timers, configuration broadcasts, `process_close` and the injections of child processes started by a hello (further `inject` calls) are not.
- Token randomness, the mapping's access control and the wiping of login frames: outside a correctness model.
- Socks5Client.Connection.Handshake: a send goes through whole or fails with nothing sent; the part of a frame a failing send may have put out is not recorded.
- The `sockaddr_storage` a numeric reply also fills, the same address and port in another spelling.
- Socks5Requests.SpellingsOfADestinationAgree: the IpAddr builder is modelled as a function, because it only picks arguments for the builder that is modelled in place.
- Wildcard.WildcardMatch: folds ASCII letters only; what `tolower` does with other characters depends on the locale.
- `winnet.hpp`, `hook.hpp`, `client.hpp`, `schema.hpp`, the front ends and the error redactor are not part of this model.
