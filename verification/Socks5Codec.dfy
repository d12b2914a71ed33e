/**
 * The SOCKS5 byte layouts: requests (section 4 of RFC 1928), datagram headers (section
 * 7 of RFC 1928), greetings (section 3) and the login frame (section 2 of RFC 1929).
 */
module Socks5Codec {
  import opened Basics

  const SOCKS_VERSION: byte := 5
  const NO_AUTHENTICATION: byte := 0
  const USERNAME_PASSWORD: byte := 2
  const AUTH_VERSION: byte := 1
  const CONNECT: byte := 1
  const UDP_ASSOCIATE: byte := 3
  const IPV4: byte := 1
  const DOMAINNAME: byte := 3
  const IPV6: byte := 4
  const FRAG_NOT: byte := 0
  const NAME_MAX := 255
  const UDP_NAME_MAX := 16
  const REQUEST_MAX_SIZE := 4 + 1 + NAME_MAX + 2
  const UDP_HEADER_MAX := 4 + 1 + NAME_MAX + 2
  const GREETING_MAX_SIZE := 2 + 255
  const AUTH_MAX_SIZE := 1 + 1 + 255 + 1 + 255

  type Port = x: int | 0 <= x < 65536

  /** PORT in network order. */
  function PortOctets(port: Port): seq<byte> { [port / 256, port % 256] }

  function PortOf(hi: byte, lo: byte): Port { 256 * hi + lo }

  // ------------------------------------------------------------ addresses

  /** strlen: octets before the first NUL. */
  function CLength(src: seq<byte>): (n: nat)
    requires 0 in src
    ensures n < |src| && src[n] == 0 && forall i :: 0 <= i < n ==> src[i] != 0
  {
    if src[0] == 0 then 0 else
      assert 0 in src[1..];
      1 + CLength(src[1..])
  }

  /** What the pointer must carry for this ATYP to be read at all: 4 or 16 octets, or a terminated string. */
  predicate Readable(atyp: byte, src: seq<byte>) {
    && (atyp == IPV4 ==> |src| >= 4)
    && (atyp == IPV6 ==> |src| >= 16)
    && (atyp == DOMAINNAME ==> 0 in src)
  }

  /** ATYP and the address after it, as both encoders emit them; nothing when it cannot be encoded. */
  function AddrField(atyp: byte, src: Option<seq<byte>>): (field: seq<byte>)
    requires src.Some? ==> Readable(atyp, src.value)
    ensures field != [] ==> field[0] == atyp
    ensures |field| <= NAME_MAX + 2
  {
    if src.None? then []
    else if atyp == IPV4 then [atyp] + src.value[..4]
    else if atyp == IPV6 then [atyp] + src.value[..16]
    else if atyp == DOMAINNAME then
      var n := CLength(src.value);
      if n == 0 || n > NAME_MAX then [] else [atyp] + ([n] + src.value[..n])
    else []
  }

  /** {VER, CMD, RSV, ATYP, ADDR, PORT}, or nothing. */
  function EncodeRequest(cmd: byte, atyp: byte, src: Option<seq<byte>>, port: Port): seq<byte>
    requires src.Some? ==> Readable(atyp, src.value)
  {
    var field := AddrField(atyp, src);
    if field == [] then [] else [SOCKS_VERSION, cmd, 0] + field + PortOctets(port)
  }

  /** {RSV, RSV, FRAG, ATYP, ADDR, PORT}, or nothing. */
  function EncodeUdpHeader(atyp: byte, src: Option<seq<byte>>, port: Port, frag: byte): seq<byte>
    requires src.Some? ==> Readable(atyp, src.value)
  {
    var field := AddrField(atyp, src);
    if field == [] then [] else [0, 0, frag] + field + PortOctets(port)
  }

  // ------------------------------------------------------------ builders

  /** A buffer with these octets written from `at` on, everything else as it was. */
  function Overwritten(before: seq<byte>, at: nat, octets: seq<byte>): (after: seq<byte>)
    requires at + |octets| <= |before|
    ensures |after| == |before|
  {
    before[..at] + octets + before[at + |octets|..]
  }

  /** Two writes side by side are one write, in either order. */
  lemma OverwritesJoin(before: seq<byte>, at: nat, x: seq<byte>, y: seq<byte>)
    requires at + |x| + |y| <= |before|
    ensures Overwritten(Overwritten(before, at + |x|, y), at, x) == Overwritten(before, at, x + y)
    ensures Overwritten(Overwritten(before, at, x), at + |x|, y) == Overwritten(before, at, x + y)
  {
  }

  /** One octet stored into a buffer. */
  method PutOctet(out: array<byte>, at: nat, octet: byte)
    requires at < out.Length
    modifies out
    ensures out[..] == Overwritten(old(out[..]), at, [octet])
  {
    out[at] := octet;
  }

  /** memcpy into a buffer. */
  method PutOctets(out: array<byte>, at: nat, octets: seq<byte>)
    requires at + |octets| <= out.Length
    modifies out
    ensures out[..] == Overwritten(old(out[..]), at, octets)
  {
    var i := 0;
    while i < |octets|
      invariant 0 <= i <= |octets|
      invariant out[..] == Overwritten(old(out[..]), at, octets[..i])
    {
      out[at + i] := octets[i];
      i := i + 1;
    }
    assert octets[..|octets|] == octets;
  }

  /**
   * ATYP and address from `at` on; 0 when they cannot be encoded or have nowhere to go, and then
   * nothing is written.
   */
  method WriteAtypAddr(atyp: byte, src: Option<seq<byte>>, out: array?<byte>, at: nat) returns (n: nat)
    requires src.Some? ==> Readable(atyp, src.value)
    requires out != null ==> at + |AddrField(atyp, src)| <= out.Length
    modifies out
    ensures out == null ==> n == 0
    ensures out != null ==> n == |AddrField(atyp, src)|
                            && out[..] == Overwritten(old(out[..]), at, AddrField(atyp, src))
  {
    if out == null {
      return 0;
    }
    WritesNothing(out[..], at);
    if src.None? {
      return 0;
    }
    if atyp == IPV4 {
      n := WriteAddr(atyp, src.value[..4], out, at);
    } else if atyp == IPV6 {
      n := WriteAddr(atyp, src.value[..16], out, at);
    } else if atyp == DOMAINNAME {
      var size := CLength(src.value);
      if size == 0 || size > NAME_MAX {
        return 0;
      }
      n := WriteAddr(atyp, [size] + src.value[..size], out, at);
    } else {
      return 0;
    }
  }

  lemma WritesNothing(before: seq<byte>, at: nat)
    requires at <= |before|
    ensures Overwritten(before, at, []) == before
  {
  }

  /** The address octets, then the ATYP octet in front of them. */
  method WriteAddr(atyp: byte, addr: seq<byte>, out: array<byte>, at: nat) returns (n: nat)
    requires at + 1 + |addr| <= out.Length
    modifies out
    ensures n == |addr| + 1 && out[..] == Overwritten(old(out[..]), at, [atyp] + addr)
  {
    OverwritesJoin(out[..], at, [atyp], addr);
    PutOctets(out, at + 1, addr);
    PutOctet(out, at, atyp);
    n := |addr| + 1;
  }

  method WritePort(out: array<byte>, at: nat, port: Port)
    requires at + 2 <= out.Length
    modifies out
    ensures out[..] == Overwritten(old(out[..]), at, PortOctets(port))
  {
    out[at] := port / 256;
    out[at + 1] := port % 256;
  }

  /** The three octets in front and the port behind an address already in place at offset 3. */
  method FinishHeader(
      head: seq<byte>, field: nat, port: Port, out: array<byte>, ghost before: seq<byte>, ghost addr: seq<byte>)
    requires |head| == 3 && field == |addr| && field + 5 <= out.Length == |before|
    requires out[..] == Overwritten(before, 3, addr)
    modifies out
    ensures out[..] == Overwritten(before, 0, head + addr + PortOctets(port))
  {
    OverwritesJoin(before, 0, head, addr);
    OverwritesJoin(before, 0, head + addr, PortOctets(port));
    out[0], out[1], out[2] := head[0], head[1], head[2];
    assert out[..] == Overwritten(Overwritten(before, 3, addr), 0, head);
    WritePort(out, 3 + field, port);
  }

  /** The request, and how many octets it is; 0 leaves the buffer as it was. */
  method BuildRequestCmd(cmd: byte, atyp: byte, src: Option<seq<byte>>, port: Port, out: array?<byte>) returns (n: nat)
    requires src.Some? ==> Readable(atyp, src.value)
    requires out != null ==> out.Length >= REQUEST_MAX_SIZE
    modifies out
    ensures out == null ==> n == 0
    ensures out != null ==> n == |EncodeRequest(cmd, atyp, src, port)|
                            && out[..] == Overwritten(old(out[..]), 0, EncodeRequest(cmd, atyp, src, port))
  {
    if out == null {
      return 0;
    }
    ghost var before := out[..];
    WritesNothing(before, 0);
    WritesNothing(before, 3);
    var field := WriteAtypAddr(atyp, src, out, 3);
    if field == 0 {
      return 0;
    }
    FinishHeader([SOCKS_VERSION, cmd, 0], field, port, out, before, AddrField(atyp, src));
    n := field + 5;
  }

  /** The datagram header, and how many octets it is; 0 leaves the buffer as it was. */
  method BuildUdpHeader(atyp: byte, src: Option<seq<byte>>, port: Port, frag: byte, out: array?<byte>) returns (n: nat)
    requires src.Some? ==> Readable(atyp, src.value)
    requires out != null ==> out.Length >= UDP_HEADER_MAX
    modifies out
    ensures out == null ==> n == 0
    ensures out != null ==> n == |EncodeUdpHeader(atyp, src, port, frag)|
                            && out[..] == Overwritten(old(out[..]), 0, EncodeUdpHeader(atyp, src, port, frag))
  {
    if out == null {
      return 0;
    }
    ghost var before := out[..];
    WritesNothing(before, 0);
    WritesNothing(before, 3);
    var field := WriteAtypAddr(atyp, src, out, 3);
    if field == 0 {
      return 0;
    }
    FinishHeader([0, 0, frag], field, port, out, before, AddrField(atyp, src));
    n := field + 5;
  }

  /** {VER, NMETHODS, METHODS...}, or nothing when the list is missing, empty, or too long to count in one octet. */
  function EncodeGreeting(methods: Option<seq<byte>>): seq<byte> {
    if methods.None? || methods.value == [] || |methods.value| > 255 then []
    else [SOCKS_VERSION, |methods.value|] + methods.value
  }

  /** The greeting, in a buffer that needs room for it and no more. */
  method BuildGreeting(methods: Option<seq<byte>>, out: array?<byte>) returns (n: nat)
    requires out != null ==> |EncodeGreeting(methods)| <= out.Length
    modifies out
    ensures out == null ==> n == 0
    ensures out != null ==> n == |EncodeGreeting(methods)|
                            && out[..] == Overwritten(old(out[..]), 0, EncodeGreeting(methods))
  {
    if out == null {
      return 0;
    }
    WritesNothing(out[..], 0);
    if methods.None? || methods.value == [] || |methods.value| > 255 {
      return 0;
    }
    var ids := methods.value;
    OverwritesJoin(out[..], 0, [SOCKS_VERSION, |ids|], ids);
    PutOctets(out, 2, ids);
    ghost var listed := out[..];
    out[0], out[1] := SOCKS_VERSION, |ids|;
    assert out[..] == Overwritten(listed, 0, [SOCKS_VERSION, |ids|]);
    n := |ids| + 2;
  }

  /** {VER, ULEN, USERNAME, PLEN, PASSWORD}, or nothing when a credential is longer than its length octet can say. */
  function EncodeAuth(user: seq<byte>, pass: seq<byte>): seq<byte> {
    if |user| > 255 || |pass| > 255 then []
    else [AUTH_VERSION, |user|] + user + [|pass|] + pass
  }

  /** The login frame, written octet by octet through a moving pointer. */
  method BuildAuth(user: seq<byte>, pass: seq<byte>, out: array?<byte>) returns (n: nat)
    requires out != null ==> out.Length >= AUTH_MAX_SIZE
    modifies out
    ensures out == null ==> n == 0
    ensures out != null ==> n == |EncodeAuth(user, pass)|
                            && out[..] == Overwritten(old(out[..]), 0, EncodeAuth(user, pass))
  {
    if out == null {
      return 0;
    }
    ghost var before := out[..];
    WritesNothing(before, 0);
    if |user| > 255 || |pass| > 255 {
      return 0;
    }
    var p := 0;
    out[p], p := AUTH_VERSION, p + 1;
    out[p], p := |user|, p + 1;
    OverwritesJoin(before, 0, [AUTH_VERSION, |user|], user);
    assert out[..] == Overwritten(before, 0, [AUTH_VERSION, |user|]);
    PutOctets(out, p, user);
    p := p + |user|;
    OverwritesJoin(before, 0, [AUTH_VERSION, |user|] + user, [|pass|]);
    PutOctet(out, p, |pass|);
    p := p + 1;
    OverwritesJoin(before, 0, [AUTH_VERSION, |user|] + user + [|pass|], pass);
    PutOctets(out, p, pass);
    n := p + |pass|;
  }
}
