/**
 * The SOCKS5 client over one socket: frames are laid out in buffers, sent, and the answers
 * consumed from the stream.
 */
module Socks5Client {
  import opened Basics
  import opened Socks5Codec
  import opened Socks5Wire

  class Connection {
    var incoming: seq<byte>
    var sendsLeft: nat
    var log: seq<Event>

    ghost function View(): Wire
      reads this
    {
      Wire(incoming, sendsLeft, log)
    }

    constructor (incoming: seq<byte>, sendsLeft: nat)
      ensures View() == Wire(incoming, sendsLeft, [])
    {
      this.incoming, this.sendsLeft, log := incoming, sendsLeft, [];
    }

    /** send(): true when the whole frame went out. */
    method Send(octets: seq<byte>) returns (ok: bool)
      modifies this
      ensures View() == old(View()).Send(octets) && (ok <==> old(sendsLeft) > 0)
    {
      if sendsLeft == 0 {
        return false;
      }
      sendsLeft := sendsLeft - 1;
      log := log + [Sent(octets)];
      return true;
    }

    /** recv(n, MSG_WAITALL): everything asked for, or what came before the end of stream. */
    method RecvAll(n: nat) returns (octets: seq<byte>)
      modifies this
      ensures octets == old(View()).Available(n) && View() == old(View()).Recv(n)
    {
      if n <= |incoming| {
        octets := incoming[..n];
        incoming := incoming[n..];
      } else {
        octets := incoming;
        incoming := [];
      }
      log := log + [Got(octets)];
    }

    method Handshake(creds: Credentials) returns (ok: bool)
      modifies this
      ensures Shake(View(), ok) == Socks5Wire.Handshake(old(View()), creds)
    {
      var methods: seq<byte> := [];
      if creds.Enabled() {
        methods := methods + [USERNAME_PASSWORD];
        methods := methods + [NO_AUTHENTICATION];
      } else {
        methods := methods + [NO_AUTHENTICATION];
      }
      var req := new byte[GREETING_MAX_SIZE];
      var size := BuildGreeting(Some(methods), req);
      assert req[..size] == EncodeGreeting(Some(methods));
      assert methods == Offered(creds) && size > 0;
      var sent := Send(req[..size]);
      if !sent {
        return false;
      }
      var res := RecvAll(2);
      if |res| != 2 || res[0] != SOCKS_VERSION {
        return false;
      }
      if res[1] == NO_AUTHENTICATION {
        return true;
      }
      if res[1] != USERNAME_PASSWORD || !creds.Enabled() {
        return false;
      }
      ok := Login(creds);
    }

    /** The subnegotiation of section 2 of RFC 1929. */
    method Login(creds: Credentials) returns (ok: bool)
      modifies this
      ensures Shake(View(), ok) == Socks5Wire.Login(old(View()), creds)
    {
      var auth := new byte[AUTH_MAX_SIZE];
      var size := BuildAuth(creds.username, creds.password, auth);
      assert auth[..size] == EncodeAuth(creds.username, creds.password);
      if size == 0 {
        return false;
      }
      var sent := Send(auth[..size]);
      if !sent {
        return false;
      }
      var res := RecvAll(2);
      if |res| != 2 {
        return false;
      }
      return res[0] == AUTH_VERSION && res[1] == 0;
    }

    /** Read one reply: four octets first, and only then as many as their ATYP demands. */
    method ReadReply() returns (verdict: Verdict, rep: Option<byte>, bnd: Option<Relay>)
      modifies this
      ensures Reply(View(), verdict, rep, bnd) == Socks5Wire.ReadReply(old(View()))
    {
      rep, bnd := None, None;
      var head := RecvAll(4);
      if |head| != 4 {
        return ProtocolError, rep, bnd;
      }
      if head[0] != SOCKS_VERSION {
        return ProtocolError, rep, bnd;
      }
      rep := Some(head[1]);
      if head[1] != 0 {
        return RefusedRep, rep, bnd;
      }
      var atyp := head[3];
      var named, field := false, 0;
      if atyp == IPV4 {
        field := 4;
      } else if atyp == IPV6 {
        field := 16;
      } else if atyp == DOMAINNAME {
        var len := RecvAll(1);
        if |len| != 1 || len[0] == 0 {
          return ProtocolError, rep, bnd;
        }
        named := true;
        field := len[0];
      } else {
        return ProtocolError, rep, bnd;
      }
      var part := RecvAll(field + 2);
      if |part| != field + 2 {
        return Truncated, rep, bnd;
      }
      var port := PortOf(part[field], part[field + 1]);
      bnd := Some(if named then Named(part[..field], port) else Numeric(atyp, part[..field], port));
      verdict := if named then BndIsAName else Ok;
    }

    /** socks5_request_ex: the REP octet, or a general failure. */
    method RequestEx(frame: seq<byte>) returns (code: byte)
      modifies this
      ensures (View(), code) == Socks5Wire.RequestEx(old(View()), frame)
    {
      if frame == [] {
        return GENERAL_FAILURE;
      }
      var sent := Send(frame);
      if !sent {
        return GENERAL_FAILURE;
      }
      var verdict, rep, bnd := ReadReply();
      if verdict == Ok {
        return 0;
      }
      if verdict == RefusedRep && rep.Some? {
        return rep.value;
      }
      return GENERAL_FAILURE;
    }

    /** Request octets for a live sockaddr; 0 for a family that is neither IPv4 nor IPv6. */
    static method BuildFromSockaddr(cmd: byte, hint: Hint, out: array<byte>) returns (n: nat)
      requires HintOk(hint) && out.Length >= REQUEST_MAX_SIZE
      modifies out
      ensures n == |RequestFromSockaddr(cmd, hint)| && out[..n] == RequestFromSockaddr(cmd, hint)
    {
      match hint
      case Inet(octets, port) => n := BuildRequestCmd(cmd, IPV4, Some(octets), port, out);
      case Inet6(octets, port) => n := BuildRequestCmd(cmd, IPV6, Some(octets), port, out);
      case OtherFamily => n := 0;
    }

    method Associate(creds: Credentials, hint: Hint) returns (verdict: Verdict, rep: byte, bnd: Option<Relay>)
      requires HintOk(hint)
      modifies this
      ensures Reply(View(), verdict, Some(rep), bnd) == Socks5Wire.Associate(old(View()), creds, hint)
    {
      var shaken := Handshake(creds);
      if !shaken {
        return RefusedRep, GENERAL_FAILURE, None;
      }
      var buf := new byte[REQUEST_MAX_SIZE];
      var size := BuildFromSockaddr(UDP_ASSOCIATE, hint, buf);
      if size == 0 {
        size := BuildFromSockaddr(UDP_ASSOCIATE, ANY_HINT, buf);
      }
      assert buf[..size] == AssociateFrame(hint);
      var sent := Send(buf[..size]);
      if !sent {
        return ProtocolError, GENERAL_FAILURE, None;
      }
      var answered: Option<byte>;
      verdict, answered, bnd := ReadReply();
      rep := if answered.Some? then answered.value else GENERAL_FAILURE;
    }
  }
}
