/**
 * The server's mutable parts as the objects they are: a list with a map of iterators into it, the
 * token store, the server.
 */
module InjectorServerObjects {
  import opened Basics
  import opened InjectorServer

  /** A node of the kept list; a reference to one is what a list iterator is. */
  class Node {
    const pid: Pid

    constructor (pid: Pid)
      ensures this.pid == pid
    {
      this.pid := pid;
    }
  }

  /** The pids a list spells. */
  function PidsOf(order: seq<Node>): (pids: seq<Pid>)
    ensures |pids| == |order| && forall k :: 0 <= k < |order| ==> pids[k] == order[k].pid
  {
    seq(|order|, k requires 0 <= k < |order| => order[k].pid)
  }

  /** list::erase(iterator): the one node gone, the rest in order. */
  function Erased(order: seq<Node>, node: Node): (out: seq<Node>)
    ensures forall k :: 0 <= k < |out| ==> out[k] in order
    ensures node !in order ==> out == order
  {
    if order == [] then []
    else if order[0] == node then order[1..]
    else [order[0]] + Erased(order[1..], node)
  }

  /** Erasing by iterator is removing the pid, when the iterator is that pid's only node. */
  lemma {:induction false} ErasedIsWithout(order: seq<Node>, node: Node)
    requires node in order && Distinct<Pid>(PidsOf(order))
    ensures PidsOf(Erased(order, node)) == Without<Pid>(PidsOf(order), node.pid)
  {
    var pids := PidsOf(order);
    assert pids[1..] == PidsOf(order[1..]);
    if order[0] == node {
      assert forall k :: 1 <= k < |pids| ==> pids[k] != pids[0];
      WithoutNone<Pid>(pids[1..], node.pid);
    } else {
      var k :| 0 <= k < |order| && order[k] == node;
      assert order[1..][k - 1] == node && pids[k] == node.pid != pids[0];
      ErasedIsWithout(order[1..], node);
    }
  }

  class KeptBootstraps {
    var order: seq<Node>
    var where: map<Pid, Node>

    /** List and index agree: one node a pid, and its iterator denotes that very node. */
    ghost predicate Agrees()
      reads this
    {
      && Distinct<Pid>(PidsOf(order))
      && (forall k :: 0 <= k < |order| ==> order[k].pid in where && where[order[k].pid] == order[k])
      && (forall pid :: pid in where ==> where[pid] in order && where[pid].pid == pid)
    }

    ghost predicate Valid()
      reads this
    {
      Agrees() && |order| <= KEPT_CAP
    }

    /** The record these fields spell, oldest first. */
    ghost function Pids(): seq<Pid>
      reads this
    {
      PidsOf(order)
    }

    constructor ()
      ensures Valid() && Pids() == []
    {
      order, where := [], map[];
    }

    method EraseLocked(pid: Pid)
      requires Valid()
      modifies this
      ensures Valid() && Pids() == Without<Pid>(old(Pids()), pid)
    {
      if pid !in where {
        assert forall k :: 0 <= k < |order| ==> order[k].pid != pid;
        WithoutNone<Pid>(Pids(), pid);
        return;
      }
      var node := where[pid];
      ErasedIsWithout(order, node);
      WithoutIsDistinct<Pid>(Pids(), pid);
      ghost var before := order;
      order := Erased(order, node);
      where := where - {pid};
      assert forall k :: 0 <= k < |order| ==> PidsOf(order)[k] != pid;
      forall p | p in where ensures where[p] in order {
        ErasedKeepsOthers(before, node, where[p]);
      }
    }

    /** Remember the pid; answer the pid whose bootstrap must go because the record overflowed. */
    method Keep(pid: Pid) returns (evicted: Option<Pid>)
      requires Valid()
      modifies this
      ensures Valid() && Kept(Pids(), evicted) == InjectorServer.Keep(old(Pids()), pid)
    {
      EraseLocked(pid);
      var node := new Node(pid);
      PushBack(node);
      if |order| <= KEPT_CAP {
        return None;
      }
      evicted := Some(order[0].pid);
      PopFront();
    }

    /** push_back, and the iterator to the new last node. */
    method PushBack(node: Node)
      requires Agrees() && node.pid !in Pids()
      modifies this
      ensures Agrees() && Pids() == old(Pids()) + [node.pid] && |order| == old(|order|) + 1
    {
      ghost var before := order;
      order := order + [node];
      where := where[node.pid := node];
      assert forall k :: 0 <= k < |before| ==> PidsOf(before)[k] == before[k].pid;
    }

    method PopFront()
      requires Agrees() && order != []
      modifies this
      ensures Agrees() && Pids() == old(Pids())[1..] && |order| == old(|order|) - 1
    {
      ghost var before := order;
      where := where - {order[0].pid};
      order := order[1..];
      assert Pids() == PidsOf(before)[1..];
      assert forall k :: 0 <= k < |order| ==> order[k] == before[k + 1] && order[k].pid == PidsOf(before)[k + 1];
    }

    method Drop(pid: Pid)
      requires Valid()
      modifies this
      ensures Valid() && Pids() == Without<Pid>(old(Pids()), pid)
    {
      EraseLocked(pid);
    }
  }

  lemma {:induction false} ErasedKeepsOthers(order: seq<Node>, node: Node, other: Node)
    requires other in order && other != node
    ensures other in Erased(order, node)
  {
    if order[0] != node && order[0] != other {
      ErasedKeepsOthers(order[1..], node, other);
    }
  }

  /** The static token and mapping maps of the injector. */
  class TokenStore {
    var tokens: map<Pid, Token>
    var mappings: set<Pid>

    constructor ()
      ensures tokens == map[] && mappings == {}
    {
      tokens, mappings := map[], {};
    }

    /** The recording half of publish(). */
    method Record(pid: Pid, token: Token)
      modifies this
      ensures tokens == old(tokens)[pid := token] && mappings == old(mappings) + {pid}
    {
      tokens := tokens[pid := token];
      mappings := mappings + {pid};
    }

    method ForgetToken(pid: Pid)
      modifies this
      ensures tokens == old(tokens) - {pid} && mappings == old(mappings) - {pid}
    {
      tokens := tokens - {pid};
      mappings := mappings - {pid};
    }

    /** Undo a publish by identity: only the bootstrap that still carries this token goes. */
    method ForgetBootstrap(pid: Pid, token: Token) returns (undone: bool)
      modifies this
      ensures undone <==> pid in old(tokens) && old(tokens)[pid] == token
      ensures tokens == if undone then old(tokens) - {pid} else old(tokens)
      ensures mappings == if undone then old(mappings) - {pid} else old(mappings)
    {
      if pid !in tokens || tokens[pid] != token {
        return false;
      }
      tokens := tokens - {pid};
      mappings := mappings - {pid};
      return true;
    }

    /** Fail closed: no field, an unknown pid, another length or one different byte all refuse. */
    method TokenMatches(pid: Pid, presented: Option<Token>) returns (yes: bool)
      ensures yes <==> presented.Some? && pid in tokens && tokens[pid] == presented.value
    {
      if presented.None? || pid !in tokens {
        return false;
      }
      var expected, got := tokens[pid], presented.value;
      if |expected| != |got| {
        return false;
      }
      var i := 0;
      while i < |expected|
        invariant 0 <= i <= |expected|
        invariant expected[..i] == got[..i]
      {
        if expected[i] != got[i] {
          return false;
        }
        i := i + 1;
      }
      return true;
    }
  }

  class ControlServer {
    var started: bool
    var clients: map<Pid, SessionId>
    var sessions: map<SessionId, Session>
    const kept: KeptBootstraps
    const store: TokenStore

    ghost predicate Shaped()
      reads this, kept
    {
      kept.Valid()
    }

    /** The server these fields spell. */
    ghost function View(): Server
      reads this, kept, store
    {
      Server(started, clients, kept.Pids(), store.tokens, store.mappings, sessions)
    }

    constructor ()
      ensures Shaped() && fresh(kept) && fresh(store) && View() == EMPTY_SERVER
    {
      started, clients, sessions := false, map[], map[];
      kept := new KeptBootstraps();
      store := new TokenStore();
    }

    method Inject(pid: Pid, outcome: Outcome) returns (verdict: InjectVerdict)
      requires Shaped()
      modifies this, kept, store
      ensures Shaped() && View() == old(View()).Inject(pid, outcome)
      ensures verdict == old(View()).InjectVerdictOf(pid, outcome)
    {
      if !started {
        return NotStarted;
      }
      if pid in clients {
        return AlreadyRegistered;
      }
      if outcome.NotPublished? {
        return Failed;
      }
      store.Record(pid, outcome.token);
      if !outcome.loaded {
        var undone := store.ForgetBootstrap(pid, outcome.token);
        return Failed;
      }
      kept.Drop(pid);
      return if outcome.resident then AlreadyEncapsulated else Attached;
    }

    method Open(pid: Pid, sid: SessionId) returns (registered: bool)
      requires Shaped()
      modifies this`clients, kept
      ensures Shaped() && View() == old(View()).Open(pid, sid)
      ensures registered <==> pid !in old(clients)
    {
      if pid in clients {
        return false;
      }
      clients := clients[pid := sid];
      kept.Drop(pid);
      return true;
    }

    method Remove(pid: Pid, end: SessionEnd) returns (unregistered: bool)
      requires Shaped()
      modifies this`clients, kept, store
      ensures Shaped() && View() == old(View()).Remove(pid, end)
      ensures unregistered <==> pid in old(clients)
    {
      if end == Retired {
        kept.Drop(pid);
        store.ForgetToken(pid);
      } else {
        var stale := kept.Keep(pid);
        if stale.Some? {
          store.ForgetToken(stale.value);
        }
      }
      unregistered := pid in clients;
      clients := clients - {pid};
    }

    method Stop(sid: SessionId, end: SessionEnd)
      requires Shaped()
      modifies this, kept, store
      ensures Shaped() && View() == old(View()).Stop(sid, end)
    {
      if sid !in sessions || !sessions[sid].isOpen {
        return;
      }
      var pid := sessions[sid].pid;
      sessions := sessions[sid := sessions[sid].(isOpen := false)];
      var unregistered := Remove(pid, end);
    }

    method Close(pid: Pid) returns (found: bool)
      requires Shaped()
      modifies this, kept, store
      ensures Shaped() && View() == old(View()).Close(pid) && (found <==> pid in old(clients))
    {
      if pid !in clients {
        return false;
      }
      Stop(clients[pid], Retired);
      return true;
    }

    /** The hello branch of process(). */
    method Hello(sid: SessionId, pid: Pid, presented: Option<Token>)
      requires Shaped() && sid in sessions
      modifies this, kept, store
      ensures Shaped() && View() == old(View()).Hello(sid, pid, presented)
    {
      var welcome := store.TokenMatches(pid, presented);
      if !welcome {
        Stop(sid, Lost);
        sessions := sessions[sid := sessions[sid].(greeted := true)];
        return;
      }
      var isOpen := Open(pid, sid);
      sessions := sessions[sid := Session(true, pid, isOpen)];
    }
  }
}
