/**
 * The injector's view of its capsules: who is registered, whose bootstrap is kept for
 * a return, and which tokens are honoured.  The state as a value, one server call a step.
 */
module InjectorServer {
  import opened Basics

  type Pid = nat
  type SessionId = nat
  type Token = seq<byte>

  /** Bootstraps a lost session may leave in place. */
  const KEPT_CAP := 4096

  /** One control connection; `pid` means something once it was opened. */
  datatype Session = Session(greeted: bool, pid: Pid, isOpen: bool)

  datatype SessionEnd = Lost | Retired

  datatype InjectVerdict = Attached | AlreadyEncapsulated | AlreadyRegistered | NotStarted | Failed

  /** What the foreign half of an injection did: nothing published, or a token published and the load's result. */
  datatype Outcome = NotPublished | Published(token: Token, loaded: bool, resident: bool)

  // ------------------------------------------------------------ the kept record

  datatype Kept = Kept(order: seq<Pid>, evicted: Option<Pid>)

  /** keep(): move to the newest end, and give up the oldest when that overflows the cap. */
  function Keep(order: seq<Pid>, pid: Pid): Kept {
    var renewed := Without<Pid>(order, pid) + [pid];
    if |renewed| <= KEPT_CAP then Kept(renewed, None) else Kept(renewed[1..], Some(renewed[0]))
  }

  ghost predicate KeptOk(order: seq<Pid>) {
    Distinct<Pid>(order) && |order| <= KEPT_CAP
  }

  /**
   * keep() loses at most one pid: the oldest of the others, never the one just kept,
   * and only when the record was full of others.
   */
  lemma KeepEvictsTheOldest(order: seq<Pid>, pid: Pid)
    requires KeptOk(order)
    ensures var k := Keep(order, pid);
            && KeptOk(k.order) && k.order != [] && k.order[|k.order| - 1] == pid
            && (forall p :: p in k.order <==> (p == pid || p in order) && Some(p) != k.evicted)
            && (k.evicted.Some? <==> |Without<Pid>(order, pid)| == 4096)
            && (k.evicted.Some? ==> pid !in order && k.evicted.value == order[0] && k.order == order[1..] + [pid])
  {
    WithoutIsDistinct<Pid>(order, pid);
    var renewed := Without<Pid>(order, pid) + [pid];
    assert Distinct<Pid>(renewed);
    if |renewed| > KEPT_CAP {
      WithoutNone<Pid>(order, pid);
      assert forall p :: p in renewed <==> p == renewed[0] || p in renewed[1..];
    }
  }

  // ------------------------------------------------------------ the server

  datatype Server = Server(
    started: bool,
    clients: map<Pid, SessionId>,
    kept: seq<Pid>,
    tokens: map<Pid, Token>,
    mappings: set<Pid>,
    sessions: map<SessionId, Session>
  ) {
    function ForgetToken(pid: Pid): Server {
      this.(tokens := tokens - {pid}, mappings := mappings - {pid})
    }

    /** Undo one publish, and only that one. */
    function ForgetBootstrap(pid: Pid, token: Token): Server {
      if pid in tokens && tokens[pid] == token then ForgetToken(pid) else this
    }

    function Publish(pid: Pid, token: Token): Server {
      this.(tokens := tokens[pid := token], mappings := mappings + {pid})
    }

    predicate TokenMatches(pid: Pid, presented: Option<Token>) {
      presented.Some? && pid in tokens && tokens[pid] == presented.value
    }

    function InjectVerdictOf(pid: Pid, outcome: Outcome): InjectVerdict {
      if !started then NotStarted
      else if pid in clients then AlreadyRegistered
      else if outcome.NotPublished? || !outcome.loaded then Failed
      else if outcome.resident then AlreadyEncapsulated
      else Attached
    }

    /** The call reaches publish() and publish() succeeds. */
    predicate Republishes(pid: Pid, outcome: Outcome) {
      started && pid !in clients && outcome.Published?
    }

    function Inject(pid: Pid, outcome: Outcome): Server {
      if !Republishes(pid, outcome) then this
      else
        var published := Publish(pid, outcome.token);
        if !outcome.loaded then published.ForgetBootstrap(pid, outcome.token)
        else published.(kept := Without<Pid>(published.kept, pid))
    }

    /** open(): register, unless the pid already is. */
    function Open(pid: Pid, sid: SessionId): Server {
      if pid in clients then this
      else this.(clients := clients[pid := sid], kept := Without<Pid>(kept, pid))
    }

    /** The hello branch of process(). */
    function Hello(sid: SessionId, pid: Pid, presented: Option<Token>): Server {
      if sid !in sessions then this
      else if !TokenMatches(pid, presented) then Stop(sid, Lost).Greeted(sid)
      else
        var openedNow := pid !in clients;
        Open(pid, sid).(sessions := sessions[sid := Session(true, pid, openedNow)])
    }

    function Greeted(sid: SessionId): Server {
      if sid in sessions then this.(sessions := sessions[sid := sessions[sid].(greeted := true)]) else this
    }

    function Remove(pid: Pid, end: SessionEnd): Server {
      var settled :=
        if end == Retired then this.(kept := Without<Pid>(kept, pid)).ForgetToken(pid)
        else
          var k := Keep(kept, pid);
          var recorded := this.(kept := k.order);
          if k.evicted.Some? then recorded.ForgetToken(k.evicted.value) else recorded;
      settled.(clients := settled.clients - {pid})
    }

    /** stop(): the one caller that finds the session open removes it. */
    function Stop(sid: SessionId, end: SessionEnd): Server {
      if sid !in sessions || !sessions[sid].isOpen then this
      else this.(sessions := sessions[sid := sessions[sid].(isOpen := false)]).Remove(sessions[sid].pid, end)
    }

    /** close(): the front end's un-inject. */
    function Close(pid: Pid): Server {
      if pid in clients then Stop(clients[pid], Retired) else this
    }

    // ---------------------------------------------------------- invariant

    /** Registrations and open sessions are the two ends of one relation, and every registered pid has a token. */
    ghost predicate ClientsOk() {
      && (forall pid :: pid in clients ==>
            clients[pid] in sessions && sessions[clients[pid]] == Session(true, pid, true) && pid in tokens)
      && (forall sid :: sid in sessions && sessions[sid].isOpen ==>
            sessions[sid].pid in clients && clients[sessions[sid].pid] == sid)
    }

    /** Tokens and mappings are two halves of one record; nobody is both registered and kept. */
    ghost predicate RecordsOk() {
      && tokens.Keys == mappings
      && KeptOk(kept)
      && (forall pid :: pid in kept ==> pid !in clients)
    }

    ghost predicate Valid() { ClientsOk() && RecordsOk() }
  }

  const EMPTY_SERVER := Server(false, map[], [], map[], {}, map[])

  datatype Call =
    | StartCall
    | InjectCall(pid: Pid, outcome: Outcome)
    | ConnectCall(sid: SessionId)
    | HelloCall(sid: SessionId, pid: Pid, presented: Option<Token>)
    | LoseCall(sid: SessionId)
    | CloseCall(pid: Pid)

  /**
   * Connections are new objects, messages arrive on existing ones, and a session that is
   * already open is not sent a second valid hello.
   */
  predicate Allowed(s: Server, call: Call) {
    match call
    case ConnectCall(sid) => sid !in s.sessions
    case HelloCall(sid, pid, presented) =>
      sid in s.sessions && !(s.sessions[sid].isOpen && s.TokenMatches(pid, presented))
    case _ => true
  }

  function Perform(s: Server, call: Call): Server {
    match call
    case StartCall => s.(started := true)
    case InjectCall(pid, outcome) => s.Inject(pid, outcome)
    case ConnectCall(sid) => s.(sessions := s.sessions[sid := Session(false, 0, false)])
    case HelloCall(sid, pid, presented) => s.Hello(sid, pid, presented)
    case LoseCall(sid) => s.Stop(sid, Lost)
    case CloseCall(pid) => s.Close(pid)
  }

  // ------------------------------------------------------------ what one call preserves

  lemma InjectKeepsValid(s: Server, pid: Pid, outcome: Outcome)
    requires s.Valid()
    ensures s.Inject(pid, outcome).Valid()
  {
    WithoutIsDistinct<Pid>(s.kept, pid);
  }

  lemma RemoveKeepsRecords(s: Server, pid: Pid, end: SessionEnd)
    requires s.RecordsOk()
    ensures s.Remove(pid, end).RecordsOk()
  {
    WithoutIsDistinct<Pid>(s.kept, pid);
    KeepEvictsTheOldest(s.kept, pid);
  }

  /** Only the removed pid and an evicted one, which was not registered, lose anything. */
  lemma RemoveTouches(s: Server, pid: Pid, end: SessionEnd)
    requires s.RecordsOk()
    ensures s.Remove(pid, end).clients == s.clients - {pid}
    ensures s.Remove(pid, end).sessions == s.sessions
    ensures forall p :: p in s.clients && p != pid && p in s.tokens ==>
              p in s.Remove(pid, end).tokens && s.Remove(pid, end).tokens[p] == s.tokens[p]
  {
    KeepEvictsTheOldest(s.kept, pid);
  }

  lemma UnregisteredTogether(s: Server, later: Server, sid: SessionId)
    requires s.ClientsOk() && sid in s.sessions && s.sessions[sid].isOpen
    requires later.clients == s.clients - {s.sessions[sid].pid}
    requires later.sessions == s.sessions[sid := s.sessions[sid].(isOpen := false)]
    requires forall p :: p in later.clients && p in s.tokens ==> p in later.tokens
    ensures later.ClientsOk()
  {
  }

  lemma StopKeepsValid(s: Server, sid: SessionId, end: SessionEnd)
    requires s.Valid()
    ensures s.Stop(sid, end).Valid()
  {
    if sid in s.sessions && s.sessions[sid].isOpen {
      var pid := s.sessions[sid].pid;
      var closed := s.(sessions := s.sessions[sid := s.sessions[sid].(isOpen := false)]);
      hide Server.Remove, Server.RecordsOk, Server.ClientsOk;
      RecordsIgnoreSessions(s, closed);
      RemoveTouches(closed, pid, end);
      RemoveKeepsRecords(closed, pid, end);
      UnregisteredTogether(s, closed.Remove(pid, end), sid);
    }
  }

  lemma RecordsIgnoreSessions(s: Server, later: Server)
    requires s.RecordsOk() && later == s.(sessions := later.sessions)
    ensures later.RecordsOk()
  {
  }

  lemma OpenKeepsRecords(s: Server, pid: Pid, sid: SessionId)
    requires s.RecordsOk()
    ensures s.Open(pid, sid).RecordsOk()
  {
    WithoutIsDistinct<Pid>(s.kept, pid);
  }

  lemma GreetedKeepsValid(s: Server, sid: SessionId)
    requires s.Valid()
    ensures s.Greeted(sid).Valid()
  {
  }

  lemma AcceptedHelloKeepsValid(s: Server, sid: SessionId, pid: Pid, presented: Option<Token>)
    requires s.Valid() && s.TokenMatches(pid, presented)
    requires sid in s.sessions && !s.sessions[sid].isOpen
    ensures s.Hello(sid, pid, presented).Valid()
  {
    hide Server.RecordsOk;
    OpenKeepsRecords(s, pid, sid);
    RecordsIgnoreSessions(s.Open(pid, sid), s.Hello(sid, pid, presented));
  }

  lemma RefusedHelloKeepsValid(s: Server, sid: SessionId, pid: Pid, presented: Option<Token>)
    requires s.Valid() && !s.TokenMatches(pid, presented)
    ensures s.Hello(sid, pid, presented).Valid()
  {
    hide Server.Valid, Server.Stop, Server.Greeted;
    StopKeepsValid(s, sid, Lost);
    GreetedKeepsValid(s.Stop(sid, Lost), sid);
  }

  /** A second valid hello closes a session that is still registered, or renames it. */
  lemma SecondValidHelloBreaks(s: Server, sid: SessionId, pid: Pid, presented: Option<Token>)
    requires s.Valid() && s.TokenMatches(pid, presented)
    requires sid in s.sessions && s.sessions[sid].isOpen
    ensures !s.Hello(sid, pid, presented).ClientsOk()
  {
    var was, after := s.sessions[sid].pid, s.Hello(sid, pid, presented);
    assert was in after.clients && after.clients[was] == sid;
    assert after.sessions[sid] == Session(true, pid, pid !in s.clients);
  }

  /**
   * Which hellos the server survives: on an existing connection, exactly those that do not
   * present a valid token on a session already open.  A refused hello is always harmless.
   */
  lemma HelloKeepsValidExactlyWhen(s: Server, sid: SessionId, pid: Pid, presented: Option<Token>)
    requires s.Valid() && sid in s.sessions
    ensures s.Hello(sid, pid, presented).Valid() <==> !(s.TokenMatches(pid, presented) && s.sessions[sid].isOpen)
  {
    hide Server.Hello;
    if !s.TokenMatches(pid, presented) {
      RefusedHelloKeepsValid(s, sid, pid, presented);
    } else if s.sessions[sid].isOpen {
      SecondValidHelloBreaks(s, sid, pid, presented);
    } else {
      AcceptedHelloKeepsValid(s, sid, pid, presented);
    }
  }

  /** The first hello of a connection is one the server survives: clients that greet once need no further care. */
  lemma FirstHelloIsAllowed(s: Server, sid: SessionId, pid: Pid, presented: Option<Token>)
    requires s.Valid() && sid in s.sessions && !s.sessions[sid].greeted
    ensures Allowed(s, HelloCall(sid, pid, presented))
  {
  }

  /** No pid is ever both registered and kept, whatever is injected, lost, closed or said. */
  lemma CallKeepsValid(s: Server, call: Call)
    requires s.Valid() && Allowed(s, call)
    ensures Perform(s, call).Valid()
  {
    match call
    case InjectCall(pid, outcome) => InjectKeepsValid(s, pid, outcome);
    case HelloCall(sid, pid, presented) => HelloKeepsValidExactlyWhen(s, sid, pid, presented);
    case LoseCall(sid) => StopKeepsValid(s, sid, Lost);
    case CloseCall(pid) => if pid in s.clients { StopKeepsValid(s, s.clients[pid], Retired); }
    case _ =>
  }
}
