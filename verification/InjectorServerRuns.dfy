/** Tokens over unbounded runs: a registered capsule keeps its token, and a lost one is welcome back. */
module InjectorServerRuns {
  import opened Basics
  import opened InjectorServer

  /** A run: server calls in any order, no second valid hello on an open session, from any well-formed state. */
  ghost predicate IsRun(states: seq<Server>, calls: seq<Call>) {
    && |states| == |calls| + 1
    && states[0].Valid()
    && forall k {:trigger calls[k]} :: 0 <= k < |calls| ==>
         Allowed(states[k], calls[k]) && states[k + 1] == Perform(states[k], calls[k])
  }

  lemma EmptyIsValid()
    ensures EMPTY_SERVER.Valid()
  {
  }

  lemma {:induction false} RunIsValid(states: seq<Server>, calls: seq<Call>, k: nat)
    requires IsRun(states, calls) && k < |states|
    ensures states[k].Valid()
  {
    hide Perform, Server.Valid;
    if k > 0 {
      RunIsValid(states, calls, k - 1);
      CallKeepsValid(states[k - 1], calls[k - 1]);
    }
  }

  /** In every state of every run nobody is both registered and kept, and tokens and mappings agree. */
  lemma RegisteredOrKept(states: seq<Server>, calls: seq<Call>, k: nat, pid: Pid)
    requires IsRun(states, calls) && k < |states|
    ensures !(pid in states[k].clients && pid in states[k].kept)
    ensures pid in states[k].clients ==> pid in states[k].tokens
    ensures pid in states[k].tokens <==> pid in states[k].mappings
    ensures |states[k].kept| <= 4096
  {
    RunIsValid(states, calls, k);
  }

  // ------------------------------------------------------------ registered pids

  /** The token of pid is still the one it was. */
  predicate TokenStays(s: Server, later: Server, pid: Pid) {
    pid in s.tokens && pid in later.tokens && later.tokens[pid] == s.tokens[pid]
  }

  lemma StopSparesOthers(s: Server, sid: SessionId, end: SessionEnd, pid: Pid)
    requires s.Valid() && pid in s.clients && s.clients[pid] != sid
    ensures TokenStays(s, s.Stop(sid, end), pid)
  {
    if sid in s.sessions && s.sessions[sid].isOpen {
      var closed := s.(sessions := s.sessions[sid := s.sessions[sid].(isOpen := false)]);
      RemoveTouches(closed, s.sessions[sid].pid, end);
    }
  }

  lemma LosingKeepsTheToken(s: Server, sid: SessionId)
    requires s.Valid() && sid in s.sessions && s.sessions[sid].isOpen
    ensures TokenStays(s, s.Stop(sid, Lost), s.sessions[sid].pid)
  {
    KeepEvictsTheOldest(s.kept, s.sessions[sid].pid);
  }

  lemma StoppingAsLostKeepsTheToken(s: Server, sid: SessionId, pid: Pid)
    requires s.Valid() && pid in s.clients
    ensures TokenStays(s, s.Stop(sid, Lost), pid)
  {
    if s.clients[pid] == sid {
      LosingKeepsTheToken(s, sid);
    } else {
      StopSparesOthers(s, sid, Lost, pid);
    }
  }

  /** A registered pid loses its token, or has it changed, by its own un-inject and by nothing else. */
  lemma OnlyUninjectForgets(s: Server, call: Call, pid: Pid)
    requires s.Valid() && Allowed(s, call) && pid in s.clients
    ensures TokenStays(s, Perform(s, call), pid) <==> call != CloseCall(pid)
  {
    match call
    case LoseCall(sid) => StoppingAsLostKeepsTheToken(s, sid, pid);
    case HelloCall(sid, _, _) => StoppingAsLostKeepsTheToken(s, sid, pid);
    case CloseCall(other) =>
      if other != pid && other in s.clients {
        StopSparesOthers(s, s.clients[other], Retired, pid);
      }
    case _ =>
  }

  // ------------------------------------------------------------ lost pids

  /** The call ends connection sid as lost: it dropped, or its hello was refused. */
  predicate StopsAsLost(s: Server, call: Call) {
    || call.LoseCall?
    || (call.HelloCall? && !s.TokenMatches(call.pid, call.presented))
  }

  /** The pid whose open session a call loses. */
  function Loses(s: Server, call: Call): Option<Pid> {
    if StopsAsLost(s, call) && call.sid in s.sessions && s.sessions[call.sid].isOpen
    then Some(s.sessions[call.sid].pid)
    else None
  }

  /** The calls that end the promise to pid: a new publish for it, or its un-inject. */
  predicate Revokes(s: Server, call: Call, pid: Pid) {
    || (call.InjectCall? && call.pid == pid && s.Republishes(pid, call.outcome))
    || (call == CloseCall(pid) && pid in s.clients)
  }

  /** Everything kept after pid was lost since pid was. */
  ghost predicate YoungerAreIn(order: seq<Pid>, pid: Pid, others: set<Pid>) {
    forall p, q :: 0 <= p < q < |order| && order[p] == pid ==> order[q] in others
  }

  /** pid can come back with this token; `others` are the pids lost since it was. */
  ghost predicate Returnable(s: Server, pid: Pid, token: Token, others: set<Pid>) {
    && s.TokenMatches(pid, Some(token))
    && (pid in s.clients || pid in s.kept)
    && pid !in others
    && YoungerAreIn(s.kept, pid, others)
  }

  lemma WithoutKeepsYounger(order: seq<Pid>, x: Pid, pid: Pid, others: set<Pid>)
    requires Distinct<Pid>(order) && YoungerAreIn(order, pid, others) && x != pid
    ensures YoungerAreIn(Without<Pid>(order, x), pid, others)
  {
    if x in order {
      var k :| 0 <= k < |order| && order[k] == x;
      WithoutOne<Pid>(order, k);
    } else {
      WithoutNone<Pid>(order, x);
    }
  }

  lemma WithoutAll(order: seq<Pid>, pid: Pid, others: set<Pid>)
    ensures YoungerAreIn(Without<Pid>(order, pid), pid, others)
  {
  }

  /** Keeping another pid makes it younger than pid, and evicts pid only past 4096 of them. */
  lemma KeepSparesThePromised(order: seq<Pid>, x: Pid, pid: Pid, others: set<Pid>)
    requires KeptOk(order) && YoungerAreIn(order, pid, others) && pid !in others
    requires x != pid && x in others && |others| < KEPT_CAP
    ensures YoungerAreIn(Keep(order, x).order, pid, others)
    ensures pid in order ==> pid in Keep(order, x).order
    ensures Keep(order, x).evicted != Some(pid) || pid !in order
  {
    KeepEvictsTheOldest(order, x);
    WithoutKeepsYounger(order, x, pid, others);
    var rest := Without<Pid>(order, x);
    if Keep(order, x).evicted == Some(pid) && pid in order {
      var younger := order[1..] + [x];
      assert forall q :: 1 <= q < |order| ==> order[q] in others;
      assert forall y :: y in younger ==> y in others;
      DistinctSize<Pid>(younger, others);
      assert false;
    }
  }

  /** A pid just kept is the youngest of the record. */
  lemma JustKeptIsYoungest(order: seq<Pid>, pid: Pid, others: set<Pid>)
    requires KeptOk(order)
    ensures pid in Keep(order, pid).order && YoungerAreIn(Keep(order, pid).order, pid, others)
    ensures Keep(order, pid).evicted != Some(pid)
  {
    KeepEvictsTheOldest(order, pid);
    var renewed := Keep(order, pid).order;
    assert forall p :: 0 <= p < |renewed| - 1 ==> renewed[p] != renewed[|renewed| - 1];
  }

  function WithLost(others: set<Pid>, pid: Pid, lost: Option<Pid>): set<Pid> {
    if lost.Some? && lost.value != pid then others + {lost.value} else others
  }

  lemma LoseKeepsReturnable(s: Server, sid: SessionId, pid: Pid, token: Token, others: set<Pid>)
    requires s.Valid() && Returnable(s, pid, token, others)
    requires Loses(s, LoseCall(sid)).Some?
    requires |WithLost(others, pid, Loses(s, LoseCall(sid)))| < KEPT_CAP
    ensures Returnable(s.Stop(sid, Lost), pid, token, WithLost(others, pid, Loses(s, LoseCall(sid))))
  {
    var x := s.sessions[sid].pid;
    if x == pid {
      JustKeptIsYoungest(s.kept, pid, others);
    } else {
      KeepSparesThePromised(s.kept, x, pid, others + {x});
      KeepEvictsTheOldest(s.kept, x);
    }
  }

  lemma AcceptedHelloKeepsReturnable(
      s: Server, sid: SessionId, x: Pid, presented: Option<Token>, pid: Pid, token: Token, others: set<Pid>)
    requires s.Valid() && s.TokenMatches(x, presented) && Returnable(s, pid, token, others)
    ensures Returnable(s.Hello(sid, x, presented), pid, token, others)
  {
    if x == pid {
      WithoutAll(s.kept, pid, others);
    } else {
      WithoutKeepsYounger(s.kept, x, pid, others);
    }
  }

  lemma StoppingClosedDoesNothing(s: Server, sid: SessionId)
    requires sid in s.sessions && !s.sessions[sid].isOpen
    ensures s.Stop(sid, Lost) == s
  {
  }

  lemma GreetedKeepsReturnable(s: Server, sid: SessionId, pid: Pid, token: Token, others: set<Pid>)
    requires Returnable(s, pid, token, others)
    ensures Returnable(s.Greeted(sid), pid, token, others)
  {
  }

  lemma HelloKeepsReturnable(
      s: Server, sid: SessionId, x: Pid, presented: Option<Token>, pid: Pid, token: Token, others: set<Pid>)
    requires s.Valid() && Returnable(s, pid, token, others)
    requires |WithLost(others, pid, Loses(s, HelloCall(sid, x, presented)))| < KEPT_CAP
    ensures Returnable(
              s.Hello(sid, x, presented), pid, token, WithLost(others, pid, Loses(s, HelloCall(sid, x, presented))))
  {
    hide Server.Valid, Returnable, Server.Stop, Server.Greeted;
    if s.TokenMatches(x, presented) {
      AcceptedHelloKeepsReturnable(s, sid, x, presented, pid, token, others);
    } else if sid in s.sessions {
      if s.sessions[sid].isOpen {
        LoseKeepsReturnable(s, sid, pid, token, others);
      } else {
        StoppingClosedDoesNothing(s, sid);
      }
      GreetedKeepsReturnable(s.Stop(sid, Lost), sid, pid, token, WithLost(others, pid, Loses(s, LoseCall(sid))));
    }
  }

  lemma CloseKeepsReturnable(s: Server, x: Pid, pid: Pid, token: Token, others: set<Pid>)
    requires s.Valid() && Returnable(s, pid, token, others) && x != pid
    ensures Returnable(s.Close(x), pid, token, others)
  {
    WithoutKeepsYounger(s.kept, x, pid, others);
  }

  lemma InjectKeepsReturnable(s: Server, x: Pid, outcome: Outcome, pid: Pid, token: Token, others: set<Pid>)
    requires s.Valid() && Returnable(s, pid, token, others) && (x != pid || !s.Republishes(x, outcome))
    ensures Returnable(s.Inject(x, outcome), pid, token, others)
  {
    if x != pid {
      WithoutKeepsYounger(s.kept, x, pid, others);
    }
  }

  lemma CallKeepsReturnable(s: Server, call: Call, pid: Pid, token: Token, others: set<Pid>)
    requires s.Valid() && Allowed(s, call) && Returnable(s, pid, token, others) && !Revokes(s, call, pid)
    requires |WithLost(others, pid, Loses(s, call))| < KEPT_CAP
    ensures Returnable(Perform(s, call), pid, token, WithLost(others, pid, Loses(s, call)))
  {
    hide Returnable, Server.Valid;
    match call
    case InjectCall(x, outcome) => InjectKeepsReturnable(s, x, outcome, pid, token, others);
    case HelloCall(sid, x, presented) => HelloKeepsReturnable(s, sid, x, presented, pid, token, others);
    case LoseCall(sid) =>
      if Loses(s, call).Some? {
        LoseKeepsReturnable(s, sid, pid, token, others);
      }
    case CloseCall(x) =>
      if x != pid {
        CloseKeepsReturnable(s, x, pid, token, others);
      }
    case _ => UnrelatedKeepsReturnable(s, call, pid, token, others);
  }

  lemma UnrelatedKeepsReturnable(s: Server, call: Call, pid: Pid, token: Token, others: set<Pid>)
    requires Returnable(s, pid, token, others) && (call.StartCall? || call.ConnectCall?)
    ensures Returnable(Perform(s, call), pid, token, others)
  {
  }

  /** The distinct pids other than pid that calls [i, k) lost. */
  ghost function LostSince(states: seq<Server>, calls: seq<Call>, pid: Pid, i: nat, k: nat): set<Pid>
    requires i <= k <= |calls| && k <= |states|
    decreases k
  {
    if i == k then {}
    else WithLost(LostSince(states, calls, pid, i, k - 1), pid, Loses(states[k - 1], calls[k - 1]))
  }

  lemma {:induction false} LostSinceGrows(states: seq<Server>, calls: seq<Call>, pid: Pid, i: nat, j: nat, k: nat)
    requires i <= j <= k <= |calls| && k <= |states|
    ensures LostSince(states, calls, pid, i, j) <= LostSince(states, calls, pid, i, k)
    ensures |LostSince(states, calls, pid, i, j)| <= |LostSince(states, calls, pid, i, k)|
    decreases k
  {
    if j < k {
      LostSinceGrows(states, calls, pid, i, j, k - 1);
    }
    SubsetSize(LostSince(states, calls, pid, i, j), LostSince(states, calls, pid, i, k));
  }

  lemma LostIsReturnable(s: Server, sid: SessionId)
    requires s.Valid() && Loses(s, LoseCall(sid)).Some?
    ensures var pid := s.sessions[sid].pid;
            pid in s.tokens && Returnable(s.Stop(sid, Lost), pid, s.tokens[pid], {})
  {
    JustKeptIsYoungest(s.kept, s.sessions[sid].pid, {});
    LosingKeepsTheToken(s, sid);
  }

  /**
   * A pid lost at call i with its token is accepted again with that token in every later
   * state, unless it was injected anew or un-injected in between, or at least 4096
   * distinct other pids were lost since.
   */
  lemma {:induction false} LostPidIsWelcomeBack(
      states: seq<Server>, calls: seq<Call>, pid: Pid, token: Token, i: nat, k: nat)
    requires IsRun(states, calls) && i < k < |states|
    requires Loses(states[i], calls[i]) == Some(pid) && pid in states[i].tokens && states[i].tokens[pid] == token
    requires forall j {:trigger calls[j]} :: i < j < k ==> !Revokes(states[j], calls[j], pid)
    requires |LostSince(states, calls, pid, i + 1, k)| < 4096
    ensures states[k].TokenMatches(pid, Some(token))
    ensures Returnable(states[k], pid, token, LostSince(states, calls, pid, i + 1, k))
    decreases k
  {
    hide Perform, Server.Valid, Returnable, Loses, Revokes;
    var p := k - 1;
    RunIsValid(states, calls, p);
    if p == i {
      FirstIsReturnable(states[i], calls[i], pid, token);
    } else {
      LostSinceGrows(states, calls, pid, i + 1, p, k);
      LostPidIsWelcomeBack(states, calls, pid, token, i, p);
      CallKeepsReturnable(states[p], calls[p], pid, token, LostSince(states, calls, pid, i + 1, p));
    }
    ReturnableMatches(states[k], pid, token, LostSince(states, calls, pid, i + 1, k));
  }

  lemma FirstIsReturnable(s: Server, call: Call, pid: Pid, token: Token)
    requires s.Valid() && Loses(s, call) == Some(pid) && pid in s.tokens && s.tokens[pid] == token
    ensures Returnable(Perform(s, call), pid, token, {})
  {
    LostIsReturnable(s, call.sid);
    if call.HelloCall? {
      GreetedKeepsReturnable(s.Stop(call.sid, Lost), call.sid, pid, token, {});
    }
  }

  lemma ReturnableMatches(s: Server, pid: Pid, token: Token, others: set<Pid>)
    requires Returnable(s, pid, token, others)
    ensures s.TokenMatches(pid, Some(token))
  {
  }

  // ------------------------------------------------------------ the excluded hello

  /**
   * What the excluded hello does: presented again on its own registered session, it leaves
   * the pid registered by a session that no longer knows it is open, and losing that
   * session then unregisters nothing.
   */
  lemma SecondHelloStrands(s: Server, sid: SessionId)
    requires s.Valid() && sid in s.sessions && s.sessions[sid].isOpen
    ensures var pid := s.sessions[sid].pid;
            var again := s.Hello(sid, pid, Some(s.tokens[pid]));
            pid in again.Stop(sid, Lost).clients && !again.Valid()
  {
  }

  // ------------------------------------------------------------ what each call grants

  /**
   * A hello registers its session exactly when the token is right and the pid is free.  One
   * that does not moves nothing, unless it was refused on an open session, which is then lost.
   */
  lemma HelloRegistersExactlyWhen(s: Server, sid: SessionId, pid: Pid, presented: Option<Token>)
    requires s.Valid() && Allowed(s, HelloCall(sid, pid, presented))
    ensures var after, lost := s.Hello(sid, pid, presented), Loses(s, HelloCall(sid, pid, presented));
            && (after.sessions[sid].isOpen <==> s.TokenMatches(pid, presented) && pid !in s.clients)
            && after.sessions[sid].greeted
            && (after.sessions[sid].isOpen ==> pid in after.clients && after.clients[pid] == sid && pid !in after.kept)
            && (!after.sessions[sid].isOpen && lost.None? ==> after.clients == s.clients && after.kept == s.kept)
            && (lost.None? ==> after.tokens == s.tokens && after.mappings == s.mappings)
            && (lost.Some? ==> after.clients == s.clients - {lost.value} && lost.value in after.kept
                               && TokenStays(s, after, lost.value))
  {
    if s.sessions[sid].isOpen {
      LosingKeepsTheToken(s, sid);
      KeepEvictsTheOldest(s.kept, s.sessions[sid].pid);
    }
  }

  /**
   * An injection that reports success grants its new token and takes the pid out of the
   * record; one whose load failed leaves no token at all.
   */
  lemma InjectGrantsExactlyWhenOk(s: Server, pid: Pid, outcome: Outcome)
    requires s.Valid() && s.started && pid !in s.clients && outcome.Published?
    ensures var after, verdict := s.Inject(pid, outcome), s.InjectVerdictOf(pid, outcome);
            && (verdict == Attached || verdict == AlreadyEncapsulated <==> after.TokenMatches(pid, Some(outcome.token)))
            && (after.TokenMatches(pid, Some(outcome.token)) ==> pid !in after.kept)
            && (verdict == Failed ==> pid !in after.tokens && pid !in after.mappings)
            && (forall p :: p != pid && p in s.tokens ==> TokenStays(s, after, p))
  {
  }

  /** Un-injecting ends the registration, the token and any claim to return. */
  lemma CloseRetires(s: Server, pid: Pid)
    requires s.Valid() && pid in s.clients
    ensures var after := s.Close(pid); pid !in after.clients && pid !in after.tokens && pid !in after.kept
  {
  }
}
