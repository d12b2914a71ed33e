/**
 * What each server call moves, exactly: who is registered, who is kept, whose token is
 * honoured; and that no token outlives everyone it could be for.
 */
module InjectorServerCalls {
  import opened Basics
  import opened InjectorServer
  import opened InjectorServerRuns

  // ------------------------------------------------------------ verdicts

  /**
   * The verdict of every injection: not started, already registered, and a foreign half
   * that failed come in that order of precedence, the first two and a failed publish
   * touching nothing.
   */
  lemma VerdictExactlyWhen(s: Server, pid: Pid, outcome: Outcome)
    ensures var verdict := s.InjectVerdictOf(pid, outcome);
            && (verdict == NotStarted <==> !s.started)
            && (verdict == AlreadyRegistered <==> s.started && pid in s.clients)
            && (verdict == Failed <==> s.started && pid !in s.clients && (outcome.NotPublished? || !outcome.loaded))
            && (verdict == AlreadyEncapsulated <==>
                  s.started && pid !in s.clients && outcome.Published? && outcome.loaded && outcome.resident)
    ensures !s.started || pid in s.clients || outcome.NotPublished? ==> s.Inject(pid, outcome) == s
  {
  }

  /** A server is started by start and never stops being so. */
  lemma StartIsForGood(s: Server, call: Call)
    ensures Perform(s, call).started <==> s.started || call.StartCall?
  {
  }

  // ------------------------------------------------------------ registrations

  /** The hello is accepted and finds its pid free. */
  predicate Registers(s: Server, call: Call) {
    call.HelloCall? && call.sid in s.sessions && s.TokenMatches(call.pid, call.presented) && call.pid !in s.clients
  }

  /**
   * A pid is registered by its own accepted hello, and unregistered by the loss of its session or
   * its own un-inject.
   */
  lemma RegistrationMoves(s: Server, call: Call, pid: Pid)
    requires s.Valid() && Allowed(s, call)
    ensures pid in Perform(s, call).clients
       <==> || (Registers(s, call) && call.pid == pid)
            || (pid in s.clients && Loses(s, call) != Some(pid) && call != CloseCall(pid))
    ensures pid in s.clients && pid in Perform(s, call).clients ==> Perform(s, call).clients[pid] == s.clients[pid]
  {
    hide Keep, Server.RecordsOk, KeptOk;
    match call
    case LoseCall(sid) => StopMovesClients(s, sid, Lost);
    case HelloCall(sid, _, _) => StopMovesClients(s, sid, Lost);
    case CloseCall(other) => if other in s.clients { StopMovesClients(s, s.clients[other], Retired); }
    case _ =>
  }

  lemma StopMovesClients(s: Server, sid: SessionId, end: SessionEnd)
    ensures s.Stop(sid, end).clients
         == if sid in s.sessions && s.sessions[sid].isOpen then s.clients - {s.sessions[sid].pid} else s.clients
  {
    hide Keep;
  }

  /**
   * Sessions come from connections alone, closed and not yet greeted, and are open exactly
   * from an accepted hello that found its pid free until the session is lost or its pid
   * un-injected.
   */
  lemma SessionsMove(s: Server, call: Call, sid: SessionId)
    requires s.Valid() && Allowed(s, call)
    ensures sid in Perform(s, call).sessions <==> sid in s.sessions || call == ConnectCall(sid)
    ensures call == ConnectCall(sid) ==> Perform(s, call).sessions[sid] == Session(false, 0, false)
    ensures sid in s.sessions ==>
              (Perform(s, call).sessions[sid].isOpen
               <==> || (Registers(s, call) && call.sid == sid)
                    || (s.sessions[sid].isOpen && !(StopsAsLost(s, call) && call.sid == sid)
                        && call != CloseCall(s.sessions[sid].pid)))
  {
    hide Keep, Server.RecordsOk;
    match call
    case LoseCall(x) => StopMovesSessions(s, x, Lost); hide Server.Stop;
    case HelloCall(x, _, _) => StopMovesSessions(s, x, Lost); hide Server.Stop;
    case CloseCall(pid) => if pid in s.clients { StopMovesSessions(s, s.clients[pid], Retired); hide Server.Stop; }
    case _ =>
  }

  lemma StopMovesSessions(s: Server, sid: SessionId, end: SessionEnd)
    ensures s.Stop(sid, end).sessions
         == if sid in s.sessions && s.sessions[sid].isOpen then s.sessions[sid := s.sessions[sid].(isOpen := false)]
            else s.sessions
  {
    hide Keep;
  }

  // ------------------------------------------------------------ the record

  /** The pid a call pushes out of a full record. */
  function Evicts(s: Server, call: Call): Option<Pid> {
    match Loses(s, call)
    case Some(pid) => Keep(s.kept, pid).evicted
    case None => None
  }

  /** An injection whose load succeeded; such a pid is no longer kept, it is attached. */
  predicate Attaches(s: Server, call: Call, pid: Pid) {
    call.InjectCall? && call.pid == pid && s.Republishes(pid, call.outcome) && call.outcome.loaded
  }

  /** A pid is kept from its loss until it registers again, is attached anew, or is evicted. */
  lemma KeptMoves(s: Server, call: Call, pid: Pid)
    requires s.Valid() && Allowed(s, call)
    ensures pid in Perform(s, call).kept
       <==> || Loses(s, call) == Some(pid)
            || (pid in s.kept && !(Registers(s, call) && call.pid == pid) && !Attaches(s, call, pid)
                && Evicts(s, call) != Some(pid))
  {
    hide Keep;
    match call
    case LoseCall(sid) => StopMovesKept(s, sid, Lost, pid);
    case HelloCall(sid, _, _) => StopMovesKept(s, sid, Lost, pid);
    case CloseCall(other) => if other in s.clients { StopMovesKept(s, s.clients[other], Retired, pid); }
    case _ =>
  }

  lemma StopMovesKept(s: Server, sid: SessionId, end: SessionEnd, p: Pid)
    requires s.RecordsOk()
    ensures if sid !in s.sessions || !s.sessions[sid].isOpen then s.Stop(sid, end).kept == s.kept
            else
              var pid := s.sessions[sid].pid;
              p in s.Stop(sid, end).kept
              <==> if end == Retired then p in s.kept && p != pid
                   else p == pid || (p in s.kept && Keep(s.kept, pid).evicted != Some(p))
  {
    if sid in s.sessions && s.sessions[sid].isOpen {
      KeepEvictsTheOldest(s.kept, s.sessions[sid].pid);
    }
    hide Keep;
  }

  // ------------------------------------------------------------ tokens

  function TokenOf(s: Server, pid: Pid): Option<Token> {
    if pid in s.tokens then Some(s.tokens[pid]) else None
  }

  /**
   * Exactly the token recorded for a pid is honoured: no other, none for a pid without one, and
   * never a missing field.
   */
  lemma OnlyTheRecordedTokenMatches(s: Server, pid: Pid, presented: Option<Token>)
    ensures s.TokenMatches(pid, presented) <==> presented.Some? && TokenOf(s, pid) == presented
  {
  }

  lemma RemovalMovesTokens(s: Server, pid: Pid, end: SessionEnd, p: Pid)
    ensures TokenOf(s.Remove(pid, end), p)
         == if (end == Retired && p == pid) || (end == Lost && Keep(s.kept, pid).evicted == Some(p)) then None
            else TokenOf(s, p)
  {
    hide Keep;
  }

  /**
   * A pid's token changes by a publish for it, to the new one if the load succeeded and to
   * none if it failed; it ends by its un-inject and by its eviction from the record; and
   * by nothing else.
   */
  lemma TokenMoves(s: Server, call: Call, pid: Pid)
    requires s.Valid() && Allowed(s, call)
    ensures TokenOf(Perform(s, call), pid)
         == if call.InjectCall? && call.pid == pid && s.Republishes(pid, call.outcome) then
              if call.outcome.loaded then Some(call.outcome.token) else None
            else if (call == CloseCall(pid) && pid in s.clients) || Evicts(s, call) == Some(pid) then None
            else TokenOf(s, pid)
  {
    match call
    case LoseCall(sid) => StopMovesTokens(s, sid, Lost, pid);
    case HelloCall(sid, _, _) => StopMovesTokens(s, sid, Lost, pid);
    case CloseCall(other) => if other in s.clients { StopMovesTokens(s, s.clients[other], Retired, pid); }
    case _ =>
  }

  lemma StopMovesTokens(s: Server, sid: SessionId, end: SessionEnd, p: Pid)
    ensures TokenOf(s.Stop(sid, end), p)
         == if sid in s.sessions && s.sessions[sid].isOpen
               && ((end == Retired && p == s.sessions[sid].pid)
                   || (end == Lost && Keep(s.kept, s.sessions[sid].pid).evicted == Some(p)))
            then None else TokenOf(s, p)
  {
    if sid in s.sessions && s.sessions[sid].isOpen {
      RemovalMovesTokens(s.(sessions := s.sessions[sid := s.sessions[sid].(isOpen := false)]),
                         s.sessions[sid].pid, end, p);
    }
  }

  /** A pid evicted from the record has neither token nor mapping afterwards: it cannot come back. */
  lemma EvictedIsForgotten(s: Server, call: Call, pid: Pid)
    requires s.Valid() && Allowed(s, call) && Evicts(s, call) == Some(pid)
    ensures var after := Perform(s, call);
            pid !in after.tokens && pid !in after.mappings && pid !in after.kept && pid !in after.clients
  {
    hide Perform, Server.Valid, Allowed, Evicts;
    TokenMoves(s, call, pid);
    EvictedIsAnother(s, call, pid);
    CallKeepsValid(s, call);
    KeptMoves(s, call, pid);
    RegistrationMoves(s, call, pid);
    TokensAreMappings(Perform(s, call), pid);
  }

  lemma EvictedIsAnother(s: Server, call: Call, pid: Pid)
    requires s.Valid() && Evicts(s, call) == Some(pid)
    ensures Loses(s, call).Some? && Loses(s, call) != Some(pid) && pid !in s.clients
    ensures !call.InjectCall? && !Registers(s, call) && call != CloseCall(pid)
  {
    KeepEvictsTheOldest(s.kept, Loses(s, call).value);
  }

  lemma TokensAreMappings(s: Server, pid: Pid)
    requires s.Valid()
    ensures pid in s.tokens <==> pid in s.mappings
  {
  }

  // ------------------------------------------------------------ no token for nobody

  /** The pids attached and not registered since, as a call leaves them. */
  function AwaitedAfter(s: Server, call: Call, awaited: set<Pid>): set<Pid> {
    if call.InjectCall? && s.Republishes(call.pid, call.outcome) then
      if call.outcome.loaded then awaited + {call.pid} else awaited - {call.pid}
    else if Registers(s, call) then awaited - {call.pid}
    else awaited
  }

  /** The pids attached by the first n calls of a run from an empty server, and not registered since. */
  ghost function Awaited(states: seq<Server>, calls: seq<Call>, n: nat): set<Pid>
    requires n <= |calls| && n <= |states|
  {
    if n == 0 then {} else AwaitedAfter(states[n - 1], calls[n - 1], Awaited(states, calls, n - 1))
  }

  ghost predicate EveryTokenIsForSomeone(s: Server, awaited: set<Pid>) {
    forall pid :: pid in s.tokens ==> pid in s.clients || pid in s.kept || pid in awaited
  }

  lemma CallLeavesNoStrayToken(s: Server, call: Call, awaited: set<Pid>)
    requires s.Valid() && Allowed(s, call) && EveryTokenIsForSomeone(s, awaited)
    ensures EveryTokenIsForSomeone(Perform(s, call), AwaitedAfter(s, call, awaited))
  {
    hide Perform, Server.Valid, Allowed, Keep;
    forall pid | pid in Perform(s, call).tokens
      ensures || pid in Perform(s, call).clients || pid in Perform(s, call).kept
              || pid in AwaitedAfter(s, call, awaited)
    {
      TokenMoves(s, call, pid);
      RegistrationMoves(s, call, pid);
      KeptMoves(s, call, pid);
    }
  }

  /**
   * Over any run of a new server no token outlives its purpose: whoever has one is
   * registered, or kept for a return, or was attached and has not said hello yet.
   */
  lemma {:induction false} NoTokenIsStranded(states: seq<Server>, calls: seq<Call>, k: nat)
    requires IsRun(states, calls) && k < |states| && states[0] == EMPTY_SERVER
    ensures EveryTokenIsForSomeone(states[k], Awaited(states, calls, k))
  {
    hide Perform, Server.Valid, EveryTokenIsForSomeone, AwaitedAfter;
    if k > 0 {
      NoTokenIsStranded(states, calls, k - 1);
      RunIsValid(states, calls, k - 1);
      CallLeavesNoStrayToken(states[k - 1], calls[k - 1], Awaited(states, calls, k - 1));
    } else {
      NothingIsStrandedAtFirst();
    }
  }

  /** Call i published this very token for the pid, and its load succeeded. */
  ghost predicate Issues(s: Server, call: Call, pid: Pid, token: Token) {
    Attaches(s, call, pid) && call.outcome.token == token
  }

  /**
   * Over any run of a new server, a pid is let in only with a token that an injection for
   * that pid published and loaded, and that no later injection, un-inject or eviction took
   * back.
   */
  lemma {:induction false} HonouredTokenWasIssued(
      states: seq<Server>, calls: seq<Call>, k: nat, pid: Pid, token: Token) returns (i: nat)
    requires IsRun(states, calls) && k < |states| && states[0] == EMPTY_SERVER
    requires states[k].TokenMatches(pid, Some(token))
    ensures i < k && Issues(states[i], calls[i], pid, token)
    ensures forall j :: i < j <= k ==> TokenOf(states[j], pid) == Some(token)
    ensures forall j {:trigger calls[j]} :: i < j < k ==> !Revokes(states[j], calls[j], pid)
  {
    hide Perform, Server.Valid, Allowed, Evicts, Loses;
    var p := k - 1;
    RunIsValid(states, calls, p);
    TokenMoves(states[p], calls[p], pid);
    if Issues(states[p], calls[p], pid, token) {
      i := p;
    } else {
      i := HonouredTokenWasIssued(states, calls, p, pid, token);
    }
  }

  lemma NothingIsStrandedAtFirst()
    ensures EveryTokenIsForSomeone(EMPTY_SERVER, {})
  {
  }
}
