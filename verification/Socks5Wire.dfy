/**
 * The SOCKS5 conversation as a value: what is left to read, what was sent, and the
 * handshake, reply reader and requests as functions of it.
 */
module Socks5Wire {
  import opened Basics
  import opened Socks5Codec

  const GENERAL_FAILURE: byte := 4

  /** What crossed the socket, in order. */
  datatype Event = Sent(octets: seq<byte>) | Got(octets: seq<byte>)

  /**
   * One connected socket: the octets the peer will still deliver before it closes, how
   * many more sends will go through, and everything that crossed so far.
   */
  datatype Wire = Wire(incoming: seq<byte>, sendsLeft: nat, log: seq<Event>) {
    /** send(): the whole frame, or a failure. */
    function Send(octets: seq<byte>): Wire {
      if sendsLeft == 0 then this else this.(sendsLeft := sendsLeft - 1, log := log + [Sent(octets)])
    }

    /** What recv(n, MSG_WAITALL) returns: n octets, or fewer when the peer closes first. */
    function Available(n: nat): seq<byte> {
      if n <= |incoming| then incoming[..n] else incoming
    }

    function Recv(n: nat): Wire {
      this.(incoming := if n <= |incoming| then incoming[n..] else [], log := log + [Got(Available(n))])
    }
  }

  // ------------------------------------------------------------ handshake

  datatype Credentials = Credentials(username: seq<byte>, password: seq<byte>) {
    predicate Enabled() { username != [] || password != [] }

    /** The login frame can be written at all. */
    predicate Fits() { |username| <= 255 && |password| <= 255 }
  }

  function Offered(creds: Credentials): seq<byte> {
    if creds.Enabled() then [USERNAME_PASSWORD, NO_AUTHENTICATION] else [NO_AUTHENTICATION]
  }

  datatype Shake = Shake(wire: Wire, ok: bool)

  function Login(w: Wire, creds: Credentials): Shake {
    var frame := EncodeAuth(creds.username, creds.password);
    if frame == [] || w.sendsLeft == 0 then Shake(w, false)
    else
      var sent := w.Send(frame);
      var res := sent.Available(2);
      Shake(sent.Recv(2), |res| == 2 && res[0] == AUTH_VERSION && res[1] == 0)
  }

  function Handshake(w: Wire, creds: Credentials): Shake {
    if w.sendsLeft == 0 then Shake(w, false)
    else
      var sent := w.Send(EncodeGreeting(Some(Offered(creds))));
      var res := sent.Available(2);
      var got := sent.Recv(2);
      if |res| != 2 || res[0] != SOCKS_VERSION then Shake(got, false)
      else if res[1] == NO_AUTHENTICATION then Shake(got, true)
      else if res[1] != USERNAME_PASSWORD || !creds.Enabled() then Shake(got, false)
      else Login(got, creds)
  }

  predicate StartsWith(stream: seq<byte>, octets: seq<byte>) {
    octets <= stream
  }

  lemma LoginSucceedsExactlyWhen(w: Wire, creds: Credentials)
    ensures Login(w, creds).ok <==> creds.Fits() && w.sendsLeft >= 1 && StartsWith(w.incoming, [1, 0])
    ensures Login(w, creds).ok ==> Login(w, creds).wire.incoming == w.incoming[2..]
  {
    if |w.incoming| >= 2 {
      assert w.incoming[..2] == [w.incoming[0], w.incoming[1]];
    }
  }

  /**
   * The handshake succeeds exactly when the server picks no authentication, or picks the
   * login that was offered, could be written, and was accepted; it then leaves the
   * stream right behind the server's answers.
   */
  lemma HandshakeSucceedsExactlyWhen(w: Wire, creds: Credentials)
    ensures Handshake(w, creds).ok <==>
              || (w.sendsLeft >= 1 && StartsWith(w.incoming, [5, 0]))
              || (w.sendsLeft >= 2 && StartsWith(w.incoming, [5, 2, 1, 0]) && creds.Enabled() && creds.Fits())
    ensures Handshake(w, creds).ok ==>
              Handshake(w, creds).wire.incoming == w.incoming[if StartsWith(w.incoming, [5, 0]) then 2 else 4..]
  {
    var s := w.incoming;
    if w.sendsLeft >= 1 && |s| >= 2 {
      assert s[..2] == [s[0], s[1]];
      var got := w.Send(EncodeGreeting(Some(Offered(creds)))).Recv(2);
      LoginSucceedsExactlyWhen(got, creds);
      assert got.incoming == s[2..];
      assert |s| >= 4 ==> s[..4] == s[..2] + s[2..][..2] && s[2..][..2] == [s[2], s[3]];
      assert StartsWith(s, [5, 2, 1, 0]) <==> StartsWith(s, [5, 2]) && StartsWith(s[2..], [1, 0]);
    }
  }

  /**
   * Everything a handshake can put on the wire: the greeting first, the login only once
   * the server has answered {5, 2} to an offer of it, and nothing else.
   */
  lemma HandshakeTranscript(w: Wire, creds: Credentials)
    ensures var sent := Handshake(w, creds).wire.log[|w.log|..];
            && |w.log| <= |Handshake(w, creds).wire.log| && Handshake(w, creds).wire.log[..|w.log|] == w.log
            && |sent| <= 4
            && (|sent| >= 1 ==> sent[0] == Sent([5, |Offered(creds)|] + Offered(creds)))
            && (|sent| >= 2 ==> sent[1].Got?)
            && (|sent| >= 3 ==> sent[1] == Got([5, 2]) && creds.Enabled()
                                && sent[2] == Sent(EncodeAuth(creds.username, creds.password)) && creds.Fits())
            && (|sent| >= 4 ==> sent[3].Got?)
  {
  }

  // ------------------------------------------------------------ replies

  datatype Verdict = Ok | RefusedRep | ProtocolError | Truncated | BndIsAName

  /** BND as the relay stated it: an address ready to send to, or the text of a name. */
  datatype Relay = Numeric(atyp: byte, addr: seq<byte>, port: Port) | Named(name: seq<byte>, port: Port)

  datatype Reply = Reply(wire: Wire, verdict: Verdict, rep: Option<byte>, bnd: Option<Relay>)

  /** The address and port of a granted reply, in one read sized by what came before it. */
  function ReadBound(w: Wire, atyp: byte, field: nat): Reply
    requires 1 <= field <= NAME_MAX
  {
    var part := w.Available(field + 2);
    var got := w.Recv(field + 2);
    if |part| != field + 2 then Reply(got, Truncated, Some(0), None)
    else
      var port := PortOf(part[field], part[field + 1]);
      if atyp == DOMAINNAME then Reply(got, BndIsAName, Some(0), Some(Named(part[..field], port)))
      else Reply(got, Ok, Some(0), Some(Numeric(atyp, part[..field], port)))
  }

  function ReadReply(w: Wire): Reply {
    var head := w.Available(4);
    var got := w.Recv(4);
    if |head| != 4 || head[0] != SOCKS_VERSION then Reply(got, ProtocolError, None, None)
    else if head[1] != 0 then Reply(got, RefusedRep, Some(head[1]), None)
    else if head[3] == IPV4 then ReadBound(got, IPV4, 4)
    else if head[3] == IPV6 then ReadBound(got, IPV6, 16)
    else if head[3] == DOMAINNAME then
      var len := got.Available(1);
      if |len| != 1 || len[0] == 0 then Reply(got.Recv(1), ProtocolError, Some(0), None)
      else ReadBound(got.Recv(1), DOMAINNAME, len[0])
    else Reply(got, ProtocolError, Some(0), None)
  }

  /** A relay endpoint a granted reply can state. */
  predicate Statable(bnd: Relay) {
    match bnd
    case Numeric(atyp, addr, _) => (atyp == IPV4 && |addr| == 4) || (atyp == IPV6 && |addr| == 16)
    case Named(name, _) => 1 <= |name| <= NAME_MAX
  }

  /** A granted reply, section 6 of RFC 1928, with any RSV octet. */
  function EncodeReply(rsv: byte, bnd: Relay): seq<byte>
    requires Statable(bnd)
  {
    match bnd
    case Numeric(atyp, addr, port) => [SOCKS_VERSION, 0, rsv, atyp] + addr + PortOctets(port)
    case Named(name, port) => [SOCKS_VERSION, 0, rsv, DOMAINNAME, |name|] + name + PortOctets(port)
  }

  /** The verdict a granted reply deserves. */
  function Granted(bnd: Relay): Verdict {
    if bnd.Named? then BndIsAName else Ok
  }

  /** A read the stream can serve takes exactly the front of it. */
  lemma FullRead(w: Wire, front: seq<byte>, rest: seq<byte>)
    requires w.incoming == front + rest
    ensures w.Available(|front|) == front && w.Recv(|front|).incoming == rest
  {
  }

  lemma NumericIsRead(w: Wire, rsv: byte, atyp: byte, addr: seq<byte>, port: Port, rest: seq<byte>)
    requires Statable(Numeric(atyp, addr, port))
    requires w.incoming == [SOCKS_VERSION, 0, rsv, atyp] + (addr + PortOctets(port) + rest)
    ensures var r := ReadReply(w);
            r.verdict == Ok && r.rep == Some(0) && r.bnd == Some(Numeric(atyp, addr, port)) && r.wire.incoming == rest
  {
    hide ReadBound;
    FullRead(w, [SOCKS_VERSION, 0, rsv, atyp], addr + PortOctets(port) + rest);
    BoundIsRead(w.Recv(4), atyp, addr, port, rest);
  }

  lemma NameIsRead(w: Wire, rsv: byte, name: seq<byte>, port: Port, rest: seq<byte>)
    requires Statable(Named(name, port))
    requires w.incoming == [SOCKS_VERSION, 0, rsv, DOMAINNAME] + ([|name|] + (name + PortOctets(port) + rest))
    ensures var r := ReadReply(w);
            r.verdict == BndIsAName && r.rep == Some(0) && r.bnd == Some(Named(name, port)) && r.wire.incoming == rest
  {
    hide ReadBound;
    FullRead(w, [SOCKS_VERSION, 0, rsv, DOMAINNAME], [|name|] + (name + PortOctets(port) + rest));
    FullRead(w.Recv(4), [|name|], name + PortOctets(port) + rest);
    BoundIsRead(w.Recv(4).Recv(1), DOMAINNAME, name, port, rest);
  }

  /** Reading a granted reply yields what it states and leaves the stream right behind it. */
  lemma ReaderStaysAligned(w: Wire, rsv: byte, bnd: Relay, rest: seq<byte>)
    requires Statable(bnd) && w.incoming == EncodeReply(rsv, bnd) + rest
    ensures var r := ReadReply(w);
            r.verdict == Granted(bnd) && r.rep == Some(0) && r.bnd == Some(bnd) && r.wire.incoming == rest
  {
    hide ReadReply;
    match bnd
    case Numeric(atyp, addr, port) =>
      assert w.incoming == [SOCKS_VERSION, 0, rsv, atyp] + (addr + PortOctets(port) + rest);
      NumericIsRead(w, rsv, atyp, addr, port, rest);
    case Named(name, port) =>
      assert w.incoming == [SOCKS_VERSION, 0, rsv, DOMAINNAME] + ([|name|] + (name + PortOctets(port) + rest));
      NameIsRead(w, rsv, name, port, rest);
  }

  lemma BoundIsRead(w: Wire, atyp: byte, addr: seq<byte>, port: Port, rest: seq<byte>)
    requires 1 <= |addr| <= NAME_MAX && w.incoming == addr + PortOctets(port) + rest
    ensures var r := ReadBound(w, atyp, |addr|);
            && r.verdict == (if atyp == DOMAINNAME then BndIsAName else Ok) && r.rep == Some(0)
            && r.bnd == Some(if atyp == DOMAINNAME then Named(addr, port) else Numeric(atyp, addr, port))
            && r.wire.incoming == rest
  {
    FullRead(w, addr + PortOctets(port), rest);
    assert (addr + PortOctets(port))[..|addr|] == addr;
  }

  /** The address and port a bound read reports are the octets it consumed. */
  lemma BoundMeansStated(w: Wire, atyp: byte, field: nat)
    requires 1 <= field <= NAME_MAX && ReadBound(w, atyp, field).bnd.Some?
    ensures var r := ReadBound(w, atyp, field);
            var addr := if r.bnd.value.Named? then r.bnd.value.name else r.bnd.value.addr;
            && |addr| == field
            && w.incoming == addr + PortOctets(r.bnd.value.port) + r.wire.incoming
            && r.bnd.value
               == (if atyp == DOMAINNAME then Named(addr, r.bnd.value.port) else Numeric(atyp, addr, r.bnd.value.port))
  {
    var part := w.Available(field + 2);
    assert part == part[..field] + PortOctets(PortOf(part[field], part[field + 1]));
    assert w.incoming == part + w.incoming[field + 2..];
  }

  /** The other direction: a reply counts as granted only if the stream began with one, stating exactly that. */
  lemma GrantedMeansStated(w: Wire) returns (rsv: byte)
    requires ReadReply(w).verdict == Ok || ReadReply(w).verdict == BndIsAName
    ensures ReadReply(w).bnd.Some? && Statable(ReadReply(w).bnd.value)
    ensures w.incoming == EncodeReply(rsv, ReadReply(w).bnd.value) + ReadReply(w).wire.incoming
  {
    HeadMeansStated(w);
    rsv := w.incoming[2];
    hide ReadReply, EncodeReply;
    if w.incoming[3] == DOMAINNAME {
      NameMeansStated(w);
    } else {
      NumericMeansStated(w);
    }
  }

  lemma NumericMeansStated(w: Wire)
    requires (ReadReply(w).verdict == Ok || ReadReply(w).verdict == BndIsAName) && |w.incoming| >= 4
    requires w.incoming == [SOCKS_VERSION, 0, w.incoming[2], w.incoming[3]] + w.Recv(4).incoming
    requires w.incoming[3] == IPV4 || w.incoming[3] == IPV6
    ensures ReadReply(w).bnd.Some? && ReadReply(w).bnd.value.Numeric? && Statable(ReadReply(w).bnd.value)
    ensures w.incoming == EncodeReply(w.incoming[2], ReadReply(w).bnd.value) + ReadReply(w).wire.incoming
  {
    var atyp, after := w.incoming[3], w.Recv(4);
    var field := if atyp == IPV4 then 4 else 16;
    assert ReadReply(w) == ReadBound(after, atyp, field);
    hide ReadReply;
    GrantedBoundHasBnd(after, atyp, field);
    hide ReadBound;
    BoundMeansStated(after, atyp, field);
  }

  lemma HeadMeansStated(w: Wire)
    requires ReadReply(w).verdict == Ok || ReadReply(w).verdict == BndIsAName
    ensures |w.incoming| >= 4
    ensures w.incoming == [SOCKS_VERSION, 0, w.incoming[2], w.incoming[3]] + w.Recv(4).incoming
    ensures w.incoming[3] == IPV4 || w.incoming[3] == IPV6 || w.incoming[3] == DOMAINNAME
  {
    hide ReadBound;
    var s := w.incoming;
    assert s[..4] == [s[0], s[1], s[2], s[3]];
  }

  /** Behind a head that promises a name, a granted reply is the LEN octet and a bound read of that size. */
  lemma NameIsABoundRead(w: Wire) returns (len: byte)
    requires (ReadReply(w).verdict == Ok || ReadReply(w).verdict == BndIsAName) && |w.incoming| >= 4
    requires w.incoming[3] == DOMAINNAME
    ensures len > 0 && w.Recv(4).incoming == [len] + w.Recv(4).Recv(1).incoming
    ensures ReadReply(w) == ReadBound(w.Recv(4).Recv(1), DOMAINNAME, len)
  {
    hide ReadBound;
    len := w.Recv(4).Available(1)[0];
  }

  lemma NameMeansStated(w: Wire)
    requires (ReadReply(w).verdict == Ok || ReadReply(w).verdict == BndIsAName) && |w.incoming| >= 4
    requires w.incoming == [SOCKS_VERSION, 0, w.incoming[2], DOMAINNAME] + w.Recv(4).incoming
    ensures ReadReply(w).bnd.Some? && ReadReply(w).bnd.value.Named? && Statable(ReadReply(w).bnd.value)
    ensures w.incoming == EncodeReply(w.incoming[2], ReadReply(w).bnd.value) + ReadReply(w).wire.incoming
  {
    assert w.incoming[3] == DOMAINNAME;
    var len := NameIsABoundRead(w);
    var after := w.Recv(4).Recv(1);
    hide ReadReply;
    GrantedBoundHasBnd(after, DOMAINNAME, len);
    hide ReadBound;
    BoundMeansStated(after, DOMAINNAME, len);
  }

  lemma GrantedBoundHasBnd(w: Wire, atyp: byte, field: nat)
    requires 1 <= field <= NAME_MAX
    ensures ReadBound(w, atyp, field).bnd.Some?
       <==> ReadBound(w, atyp, field).verdict == Ok || ReadBound(w, atyp, field).verdict == BndIsAName
  {
  }

  /** Cut anywhere and followed by end of stream, a granted reply is never taken for one. */
  lemma CutReplyIsNeverGranted(w: Wire, rsv: byte, bnd: Relay, k: nat)
    requires Statable(bnd) && k < |EncodeReply(rsv, bnd)| && w.incoming == EncodeReply(rsv, bnd)[..k]
    ensures ReadReply(w).verdict == ProtocolError || ReadReply(w).verdict == Truncated
  {
    var whole := EncodeReply(rsv, bnd);
    if k >= 4 {
      assert w.incoming[0] == whole[0] && w.incoming[1] == whole[1] && w.incoming[3] == whole[3];
      assert w.incoming[4..] == whole[4..k];
    }
    if k >= 5 && bnd.Named? {
      assert w.incoming[4] == whole[4];
    }
  }

  // ------------------------------------------------------------ several replies

  function Concatenated(replies: seq<(byte, Relay)>): seq<byte>
    requires forall k :: 0 <= k < |replies| ==> Statable(replies[k].1)
  {
    if replies == [] then [] else EncodeReply(replies[0].0, replies[0].1) + Concatenated(replies[1..])
  }

  /** The wire after n replies were read, and what they stated. */
  function ReadMany(w: Wire, n: nat): (Wire, seq<Option<Relay>>)
    decreases n
  {
    if n == 0 then (w, [])
    else
      var first := ReadReply(w);
      var rest := ReadMany(first.wire, n - 1);
      (rest.0, [first.bnd] + rest.1)
  }

  /** Any sequence of granted replies is read back in order, and what follows is left alone. */
  lemma {:induction false} RepliesAreReadInOrder(w: Wire, replies: seq<(byte, Relay)>, rest: seq<byte>)
    requires forall k :: 0 <= k < |replies| ==> Statable(replies[k].1)
    requires w.incoming == Concatenated(replies) + rest
    ensures ReadMany(w, |replies|).0.incoming == rest
    ensures |ReadMany(w, |replies|).1| == |replies|
    ensures forall k :: 0 <= k < |replies| ==> ReadMany(w, |replies|).1[k] == Some(replies[k].1)
    decreases |replies|
  {
    hide ReadReply, EncodeReply;
    if replies != [] {
      var first, others := replies[0], replies[1..];
      assert w.incoming == EncodeReply(first.0, first.1) + (Concatenated(others) + rest);
      ReaderStaysAligned(w, first.0, first.1, Concatenated(others) + rest);
      RepliesAreReadInOrder(ReadReply(w).wire, others, rest);
    }
  }

  // ------------------------------------------------------------ requests

  /** socks5_request_ex: send the frame, read the reply, answer a REP octet. */
  function RequestEx(w: Wire, frame: seq<byte>): (Wire, byte) {
    if frame == [] || w.sendsLeft == 0 then (w, GENERAL_FAILURE)
    else
      var r := ReadReply(w.Send(frame));
      match r.verdict
      case Ok => (r.wire, 0)
      case RefusedRep => (r.wire, if r.rep.Some? then r.rep.value else GENERAL_FAILURE)
      case _ => (r.wire, GENERAL_FAILURE)
  }

  /** The stream starts with a whole numeric grant. */
  ghost predicate StartsWithGrant(stream: seq<byte>, rest: seq<byte>) {
    exists rsv: byte, b: Relay :: b.Numeric? && Statable(b) && stream == EncodeReply(rsv, b) + rest
  }

  /**
   * A connect is told "success", with `rest` left to read, exactly when its frame went out
   * and the server's octets are a whole numeric grant followed by that rest.
   */
  lemma SuccessMeansGranted(w: Wire, frame: seq<byte>, rest: seq<byte>)
    ensures RequestEx(w, frame).1 == 0 && RequestEx(w, frame).0.incoming == rest
            <==> frame != [] && w.sendsLeft > 0 && StartsWithGrant(w.incoming, rest)
  {
    var asked := w.Send(frame);
    RefusedIsNotZero(asked);
    hide ReadReply, EncodeReply;
    if ReadReply(asked).verdict == Ok {
      var rsv := GrantedMeansStated(asked);
      OkMeansNumeric(asked);
      assert StartsWithGrant(w.incoming, ReadReply(asked).wire.incoming);
    }
    if StartsWithGrant(w.incoming, rest) {
      var rsv: byte, b: Relay :| b.Numeric? && Statable(b) && w.incoming == EncodeReply(rsv, b) + rest;
      ReaderStaysAligned(asked, rsv, b, rest);
    }
  }

  lemma ReplyIgnoresSends(w: Wire, later: Wire)
    requires w.incoming == later.incoming
    ensures ReadReply(w).verdict == ReadReply(later).verdict && ReadReply(w).rep == ReadReply(later).rep
    ensures ReadReply(w).bnd == ReadReply(later).bnd && ReadReply(w).wire.incoming == ReadReply(later).wire.incoming
  {
    hide ReadBound;
    var got, gotLater := w.Recv(4), later.Recv(4);
    assert got.incoming == gotLater.incoming;
    BoundIgnoresSends(got, gotLater, IPV4, 4);
    BoundIgnoresSends(got, gotLater, IPV6, 16);
    if |got.incoming| > 0 && got.incoming[0] != 0 {
      BoundIgnoresSends(got.Recv(1), gotLater.Recv(1), DOMAINNAME, got.incoming[0]);
    }
  }

  lemma BoundIgnoresSends(w: Wire, later: Wire, atyp: byte, field: nat)
    requires w.incoming == later.incoming && 1 <= field <= NAME_MAX
    ensures ReadBound(w, atyp, field).(wire := later) == ReadBound(later, atyp, field).(wire := later)
    ensures ReadBound(w, atyp, field).wire.incoming == ReadBound(later, atyp, field).wire.incoming
  {
  }

  lemma RefusedIsNotZero(w: Wire)
    ensures ReadReply(w).verdict == RefusedRep ==> ReadReply(w).rep.Some? && ReadReply(w).rep.value != 0
  {
  }

  /** The bind hint of an ASSOCIATE as a sockaddr states it. */
  datatype Hint = Inet(octets: seq<byte>, port: Port) | Inet6(octets: seq<byte>, port: Port) | OtherFamily

  predicate HintOk(hint: Hint) {
    match hint
    case Inet(octets, _) => |octets| == 4
    case Inet6(octets, _) => |octets| == 16
    case OtherFamily => true
  }

  const ANY_HINT := Inet([0, 0, 0, 0], 0)

  function RequestFromSockaddr(cmd: byte, hint: Hint): seq<byte>
    requires HintOk(hint)
  {
    match hint
    case Inet(octets, port) => EncodeRequest(cmd, IPV4, Some(octets), port)
    case Inet6(octets, port) => EncodeRequest(cmd, IPV6, Some(octets), port)
    case OtherFamily => []
  }

  /** An address family the request cannot carry becomes 0.0.0.0:0, "you pick". */
  function AssociateFrame(hint: Hint): (frame: seq<byte>)
    requires HintOk(hint)
    ensures |frame| >= 3 && frame[0] == SOCKS_VERSION && frame[1] == UDP_ASSOCIATE && frame[2] == 0
  {
    var frame := RequestFromSockaddr(UDP_ASSOCIATE, hint);
    if frame == [] then RequestFromSockaddr(UDP_ASSOCIATE, ANY_HINT) else frame
  }

  /** socks5_associate: authenticate, ask for a relay, read what it granted. */
  function Associate(w: Wire, creds: Credentials, hint: Hint): Reply
    requires HintOk(hint)
  {
    var shaken := Handshake(w, creds);
    if !shaken.ok then Reply(shaken.wire, RefusedRep, Some(GENERAL_FAILURE), None)
    else if shaken.wire.sendsLeft == 0 then Reply(shaken.wire, ProtocolError, Some(GENERAL_FAILURE), None)
    else
      var r := ReadReply(shaken.wire.Send(AssociateFrame(hint)));
      r.(rep := if r.rep.Some? then r.rep else Some(GENERAL_FAILURE))
  }

  lemma ReplySendsNothing(w: Wire, e: nat)
    requires |w.log| <= e < |ReadReply(w).wire.log|
    ensures ReadReply(w).wire.log[e].Got?
  {
  }

  lemma ReplyExtendsLog(w: Wire)
    ensures w.log <= ReadReply(w).wire.log
  {
  }

  /**
   * An ASSOCIATE request (CMD 3) goes out only after the handshake succeeded, right
   * after it, and at most once.
   */
  lemma AssociateAsksOnlyWhenAuthenticated(w: Wire, creds: Credentials, hint: Hint, e: nat)
    requires HintOk(hint) && |w.log| <= e < |Associate(w, creds, hint).wire.log|
    requires var event := Associate(w, creds, hint).wire.log[e];
             event.Sent? && |event.octets| >= 2 && event.octets[0] == SOCKS_VERSION && event.octets[1] == UDP_ASSOCIATE
    ensures Handshake(w, creds).ok && e == |Handshake(w, creds).wire.log|
    ensures Associate(w, creds, hint).wire.log[e] == Sent(AssociateFrame(hint))
  {
    var shaken := Handshake(w, creds);
    HandshakeTranscript(w, creds);
    hide Handshake, ReadReply;
    var asked := shaken.wire.Send(AssociateFrame(hint));
    ReplyExtendsLog(asked);
    assert shaken.wire.log <= Associate(w, creds, hint).wire.log;
    if e < |shaken.wire.log| {
      ShakeSendsNoRequest(w, creds, e);
    } else {
      if e > |shaken.wire.log| {
        ReplySendsNothing(asked, e);
      }
    }
  }

  /** Nothing a handshake sends reads as an ASSOCIATE request. */
  lemma ShakeSendsNoRequest(w: Wire, creds: Credentials, e: nat)
    requires |w.log| <= e < |Handshake(w, creds).wire.log| && Handshake(w, creds).wire.log[e].Sent?
    ensures var octets := Handshake(w, creds).wire.log[e].octets;
            |octets| >= 2 && !(octets[0] == SOCKS_VERSION && octets[1] == UDP_ASSOCIATE)
  {
    HandshakeTranscript(w, creds);
    hide Handshake;
    var sent := Handshake(w, creds).wire.log[|w.log|..];
    assert sent[e - |w.log|] == Handshake(w, creds).wire.log[e];
  }

  /** A successful handshake has spent one send, or two when the server asked for the login. */
  lemma HandshakeSpends(w: Wire, creds: Credentials)
    requires Handshake(w, creds).ok
    ensures Handshake(w, creds).wire.sendsLeft + (if StartsWith(w.incoming, [5, 0]) then 1 else 2) == w.sendsLeft
  {
    assert w.incoming[..2] == [w.incoming[0], w.incoming[1]];
  }

  /** The stream of a server that grants a relay: its answers to the handshake, a grant of b, and more. */
  predicate GrantsRelay(w: Wire, creds: Credentials, rsv: byte, b: Relay, rest: seq<byte>)
    requires Statable(b)
  {
    || (w.sendsLeft >= 2 && w.incoming == [5, 0] + (EncodeReply(rsv, b) + rest))
    || (w.sendsLeft >= 3 && creds.Enabled() && creds.Fits()
        && w.incoming == [5, 2, 1, 0] + (EncodeReply(rsv, b) + rest))
  }

  /** What Associate does once the handshake is through. */
  lemma AssociateAfterShake(w: Wire, creds: Credentials, hint: Hint)
    requires HintOk(hint)
    ensures var a, shaken := Associate(w, creds, hint), Handshake(w, creds);
            && (a.verdict == Ok <==> shaken.ok && shaken.wire.sendsLeft > 0 && ReadReply(shaken.wire).verdict == Ok)
            && (a.verdict == Ok ==> a.bnd == ReadReply(shaken.wire).bnd
                                    && a.wire.incoming == ReadReply(shaken.wire).wire.incoming)
  {
    hide Handshake, ReadReply;
    ReplyIgnoresSends(Handshake(w, creds).wire, Handshake(w, creds).wire.Send(AssociateFrame(hint)));
  }

  lemma OkMeansNumeric(w: Wire)
    requires ReadReply(w).verdict == Ok
    ensures ReadReply(w).bnd.Some? && ReadReply(w).bnd.value.Numeric?
  {
  }

  lemma GrantedRelayIsHandedOver(w: Wire, creds: Credentials, hint: Hint, rsv: byte, b: Relay, rest: seq<byte>)
    requires HintOk(hint) && Statable(b) && b.Numeric? && GrantsRelay(w, creds, rsv, b, rest)
    ensures var a := Associate(w, creds, hint); a.verdict == Ok && a.bnd == Some(b) && a.wire.incoming == rest
  {
    hide Handshake, Associate, ReadReply, EncodeReply;
    var grant := EncodeReply(rsv, b) + rest;
    HandshakeSucceedsExactlyWhen(w, creds);
    if w.incoming == [5, 0] + grant {
      assert w.incoming[2..] == grant;
    } else {
      assert w.incoming[4..] == grant && w.incoming[1] == 2;
    }
    HandshakeSpends(w, creds);
    ReaderStaysAligned(Handshake(w, creds).wire, rsv, b, rest);
    AssociateAfterShake(w, creds, hint);
  }

  lemma HandedOverRelayWasGranted(w: Wire, creds: Credentials, hint: Hint) returns (rsv: byte)
    requires HintOk(hint) && Associate(w, creds, hint).verdict == Ok
    ensures var a := Associate(w, creds, hint);
            a.bnd.Some? && a.bnd.value.Numeric? && Statable(a.bnd.value)
            && GrantsRelay(w, creds, rsv, a.bnd.value, a.wire.incoming)
  {
    hide Handshake, Associate, ReadReply, EncodeReply;
    AssociateAfterShake(w, creds, hint);
    var shaken := Handshake(w, creds).wire;
    rsv := GrantedMeansStated(shaken);
    OkMeansNumeric(shaken);
    HandshakeSucceedsExactlyWhen(w, creds);
    HandshakeSpends(w, creds);
    if StartsWith(w.incoming, [5, 0]) {
      assert w.incoming == [5, 0] + w.incoming[2..];
    } else {
      assert w.incoming == [5, 2, 1, 0] + w.incoming[4..];
    }
  }

  /**
   * A relay b is handed over, with `rest` left to read, exactly when the server's octets
   * are its answers to the handshake followed by a whole numeric grant of b, every frame
   * could be sent, and a login the server asked for had been offered and fits.
   */
  lemma AssociateSucceedsExactlyWhen(w: Wire, creds: Credentials, hint: Hint, b: Relay, rest: seq<byte>)
    requires HintOk(hint)
    ensures var a := Associate(w, creds, hint);
            a.verdict == Ok && a.bnd == Some(b) && a.wire.incoming == rest
            <==> b.Numeric? && Statable(b) && exists rsv: byte :: GrantsRelay(w, creds, rsv, b, rest)
  {
    hide Associate, GrantsRelay;
    var a := Associate(w, creds, hint);
    if a.verdict == Ok && a.bnd == Some(b) && a.wire.incoming == rest {
      var rsv := HandedOverRelayWasGranted(w, creds, hint);
    }
    if b.Numeric? && Statable(b) && exists rsv: byte :: GrantsRelay(w, creds, rsv, b, rest) {
      var rsv: byte :| GrantsRelay(w, creds, rsv, b, rest);
      GrantedRelayIsHandedOver(w, creds, hint, rsv, b, rest);
    }
  }
}
