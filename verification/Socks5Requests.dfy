/** How the encoders agree with each other, and what a server reads out of them. */
module Socks5Requests {
  import opened Basics
  import opened Socks5Codec
  import opened Socks5Datagram
  import opened Socks5Wire

  /**
   * A request and a datagram header for the same destination agree on every octet from
   * ATYP on, so the address rules cannot drift apart.
   */
  lemma RequestAndHeaderAgree(cmd: byte, frag: byte, atyp: byte, src: seq<byte>, port: Port)
    requires Readable(atyp, src)
    ensures var request := EncodeRequest(cmd, atyp, Some(src), port);
            var header := EncodeUdpHeader(atyp, Some(src), port, frag);
            if request == [] then header == []
            else |request| == |header| && request[3..] == header[3..] && request[..3] == [SOCKS_VERSION, cmd, 0]
  {
    hide AddrField;
    var field := AddrField(atyp, Some(src));
    if field != [] {
      assert EncodeRequest(cmd, atyp, Some(src), port)[3..] == field + PortOctets(port);
      assert EncodeUdpHeader(atyp, Some(src), port, frag)[3..] == field + PortOctets(port);
    }
  }

  // ------------------------------------------------------------ the greeting

  /** The methods a server reads out of a greeting, section 3 of RFC 1928. */
  function ServerReadsGreeting(frame: seq<byte>): Option<seq<byte>> {
    if |frame| < 3 || frame[0] != 5 || |frame| - 2 != frame[1] then None else Some(frame[2..])
  }

  /**
   * A greeting carries its method list exactly, for every list of 1 to 255 methods, and there is
   * none for any other.
   */
  lemma GreetingReadsBack(methods: seq<byte>)
    ensures ServerReadsGreeting(EncodeGreeting(Some(methods))) == if 1 <= |methods| <= 255 then Some(methods) else None
    ensures EncodeGreeting(None) == [] && (EncodeGreeting(Some(methods)) == [] <==> !(1 <= |methods| <= 255))
  {
    if 1 <= |methods| <= 255 {
      assert EncodeGreeting(Some(methods))[2..] == methods;
    }
  }

  // ------------------------------------------------------------ the login frame

  /** What a server following section 2 of RFC 1929 reads. */
  function ServerReadsLogin(frame: seq<byte>): Option<Credentials> {
    if |frame| < 3 || frame[0] != AUTH_VERSION then None
    else
      var ulen: nat := frame[1];
      if |frame| < ulen + 3 then None
      else
        var plen: nat := frame[2 + ulen];
        if |frame| != ulen + plen + 3 then None
        else Some(Credentials(frame[2..2 + ulen], frame[3 + ulen..]))
  }

  /** The frame carries the login exactly, or there is no frame because it would not fit. */
  lemma LoginReadsBack(creds: Credentials)
    ensures ServerReadsLogin(EncodeAuth(creds.username, creds.password)) == if creds.Fits() then Some(creds) else None
  {
    if creds.Fits() {
      var frame := EncodeAuth(creds.username, creds.password);
      var ulen := |creds.username|;
      assert frame[2..2 + ulen] == creds.username;
      assert frame[2 + ulen] == |creds.password|;
      assert frame[3 + ulen..] == creds.password;
    }
  }

  // ------------------------------------------------------------ the two address messages

  /** An IpAddr message: host-order integers for IPv4 and port, wire-order octets for IPv6, text for a name. */
  datatype IpAddr = IpAddr(v4: Option<nat>, v6: Option<seq<byte>>, domain: Option<seq<byte>>, port: Option<nat>)

  type Word = x: int | 0 <= x < 0x1_0000_0000

  /** A host-order IPv4 address split most significant octet first. */
  function WordOctets(v: nat): (octets: seq<byte>)
    ensures |octets| == 4
  {
    [v / 0x100_0000 % 256, v / 0x1_0000 % 256, v / 0x100 % 256, v % 256]
  }

  /** The host-order value of four wire-order octets. */
  function WordOf(octets: seq<byte>): Word
    requires |octets| == 4
  {
    var a: int, b: int, c: int, d: int := octets[0], octets[1], octets[2], octets[3];
    0x100_0000 * a + 0x1_0000 * b + 0x100 * c + d
  }

  function RequestFromIpAddr(addr: IpAddr): seq<byte> {
    if addr.port.None? then []
    else
      var port := addr.port.value % 65536;
      if addr.v4.Some? then EncodeRequest(CONNECT, IPV4, Some(WordOctets(addr.v4.value)), port)
      else if addr.v6.Some? then
        if |addr.v6.value| != 16 then [] else EncodeRequest(CONNECT, IPV6, Some(addr.v6.value), port)
      else if addr.domain.Some? then
        if |addr.domain.value| > NAME_MAX then []
        else EncodeRequest(CONNECT, DOMAINNAME, Some(addr.domain.value + [0]), port)
      else []
  }

  /** The two spellings of one numeric destination, a sockaddr and an IpAddr, give the same request octet for octet. */
  lemma SpellingsOfADestinationAgree(hint: Hint)
    requires HintOk(hint) && !hint.OtherFamily?
    ensures RequestFromSockaddr(CONNECT, hint) != []
    ensures RequestFromSockaddr(CONNECT, hint)
         == RequestFromIpAddr(if hint.Inet? then IpAddr(Some(WordOf(hint.octets)), None, None, Some(hint.port))
                              else IpAddr(None, Some(hint.octets), None, Some(hint.port)))
  {
    hide EncodeRequest, AddrField;
    if hint.Inet? {
      NumericRequestIsNotEmpty(IPV4, hint.octets, hint.port);
      var a: int, b: int, c: int := hint.octets[0], hint.octets[1], hint.octets[2];
      var v := WordOf(hint.octets);
      assert v / 0x100 == 0x1_0000 * a + 0x100 * b + c;
      assert v / 0x1_0000 == 0x100 * a + b;
      assert v / 0x100_0000 == a;
      assert WordOctets(v) == hint.octets;
    } else {
      NumericRequestIsNotEmpty(IPV6, hint.octets, hint.port);
    }
  }

  lemma NumericRequestIsNotEmpty(atyp: byte, octets: seq<byte>, port: Port)
    requires Readable(atyp, octets) && (atyp == IPV4 || atyp == IPV6)
    ensures EncodeRequest(CONNECT, atyp, Some(octets), port) != []
  {
  }

  /** The address field of a name: nothing when a NUL leads or there is no text, all of it when it holds none. */
  lemma NameField(domain: seq<byte>)
    requires |domain| <= NAME_MAX
    ensures AddrField(DOMAINNAME, Some(domain + [0])) == [] <==> domain == [] || domain[0] == 0
    ensures domain != [] && NulFree(domain) ==>
              AddrField(DOMAINNAME, Some(domain + [0])) == [DOMAINNAME] + ([|domain|] + domain)
  {
    TerminatedLength(domain);
    var text := domain + [0];
    assert domain != [] ==> text[0] == domain[0];
    assert text[..|domain|] == domain;
    assert CLength(text) == 0 <==> text[0] == 0;
  }

  /**
   * A name message is encoded exactly when it is not empty, not too long, and what precedes any NUL
   * in it is not empty.
   */
  lemma NameRequestCarriesTheText(domain: seq<byte>, port: Port)
    ensures var request := RequestFromIpAddr(IpAddr(None, None, Some(domain), Some(port)));
            && (request == [] <==> domain == [] || |domain| > NAME_MAX || domain[0] == 0)
            && (NulFree(domain) && request != [] ==>
                  request == [SOCKS_VERSION, CONNECT, 0, DOMAINNAME, |domain|] + domain + PortOctets(port))
  {
    if |domain| <= NAME_MAX {
      NameField(domain);
      hide AddrField, CLength;
      if NulFree(domain) && domain != [] {
        assert [SOCKS_VERSION, CONNECT, 0] + ([DOMAINNAME] + ([|domain|] + domain))
            == [SOCKS_VERSION, CONNECT, 0, DOMAINNAME, |domain|] + domain;
      }
    }
  }

  /**
   * Which IpAddr messages give a request: those with a port and, in this order of
   * preference, an IPv4 address, an IPv6 address of 16 octets, or an encodable name.
   */
  lemma IpAddrRequestExactlyWhen(addr: IpAddr)
    ensures RequestFromIpAddr(addr) != []
       <==> addr.port.Some?
            && (addr.v4.Some?
                || (addr.v6.Some? && |addr.v6.value| == 16)
                || (addr.v6.None? && addr.domain.Some? && 1 <= |addr.domain.value| <= 255 && addr.domain.value[0] != 0))
    ensures addr.port.Some? && addr.v4.Some? ==>
              RequestFromIpAddr(addr)
              == [5, 1, 0, 1] + WordOctets(addr.v4.value) + PortOctets(addr.port.value % 65536)
    ensures addr.port.Some? && addr.v4.None? && addr.v6.Some? && |addr.v6.value| == 16 ==>
              RequestFromIpAddr(addr) == [5, 1, 0, 4] + addr.v6.value + PortOctets(addr.port.value % 65536)
  {
    if addr.port.Some? {
      var port := addr.port.value % 65536;
      if addr.v4.Some? {
        assert [5, 1, 0] + ([1] + WordOctets(addr.v4.value)[..4]) == [5, 1, 0, 1] + WordOctets(addr.v4.value);
      } else if addr.v6.Some? && |addr.v6.value| == 16 {
        assert [5, 1, 0] + ([4] + addr.v6.value[..16]) == [5, 1, 0, 4] + addr.v6.value;
      } else if addr.v6.None? && addr.domain.Some? && |addr.domain.value| <= 255 {
        NameField(addr.domain.value);
      }
    }
  }
}
