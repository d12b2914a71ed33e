/** The strict datagram-header parser, and the round trips that tie it to the builder (section 7 of RFC 1928). */
module Socks5Datagram {
  import opened Basics
  import opened Socks5Codec

  /** A decoded header; the payload starts at headerSize. */
  datatype UdpDatagram = UdpDatagram(atyp: byte, addr: seq<byte>, port: Port, headerSize: nat)

  /** Octets copied into a zeroed array of 16. */
  function Padded(octets: seq<byte>): (addr: seq<byte>)
    requires |octets| <= UDP_NAME_MAX
    ensures |addr| == UDP_NAME_MAX && addr[..|octets|] == octets
  {
    octets + seq(UDP_NAME_MAX - |octets|, _ => 0)
  }

  /** Where the address octets start and how many there are; None when the header is not one. */
  function AddrSpan(bytes: seq<byte>): Option<(nat, nat)>
    requires |bytes| >= 4
  {
    var atyp := bytes[3];
    if atyp == IPV4 then Some((4, 4))
    else if atyp == IPV6 then Some((4, 16))
    else if atyp == DOMAINNAME then
      if |bytes| < 5 then None
      else
        var len := bytes[4];
        if len == 0 || len > UDP_NAME_MAX || |bytes| < 5 + len + 2 then None else Some((5, len))
    else None
  }

  function ParseUdpHeader(data: Option<seq<byte>>): (out: Option<UdpDatagram>)
    ensures out.Some? ==> |out.value.addr| == UDP_NAME_MAX
  {
    if data.None? || |data.value| < 4 then None
    else
      var bytes := data.value;
      if bytes[2] != FRAG_NOT then None
      else
        match AddrSpan(bytes)
        case None => None
        case Some((at, size)) =>
          var portAt := at + size;
          if |bytes| < portAt + 2 then None
          else Some(UdpDatagram(
            bytes[3], Padded(bytes[at..portAt]), PortOf(bytes[portAt], bytes[portAt + 1]), portAt + 2))
  }

  /** The address octets a caller handed the builder. */
  function AddrOctets(atyp: byte, src: seq<byte>): seq<byte>
    requires Readable(atyp, src)
  {
    if atyp == IPV4 then src[..4]
    else if atyp == IPV6 then src[..16]
    else if atyp == DOMAINNAME then src[..CLength(src)]
    else []
  }

  // ------------------------------------------------------------ one layout for both directions

  /** An address that a header can carry under this ATYP. */
  predicate Carries(atyp: byte, octets: seq<byte>) {
    || (atyp == IPV4 && |octets| == 4)
    || (atyp == IPV6 && |octets| == 16)
    || (atyp == DOMAINNAME && 1 <= |octets| <= NAME_MAX)
  }

  function LenOctet(atyp: byte, octets: seq<byte>): seq<byte>
    requires |octets| <= NAME_MAX
  {
    if atyp == DOMAINNAME then [|octets|] else []
  }

  /** {RSV, RSV, FRAG, ATYP, (LEN), ADDR, PORT}. */
  function Layout(rsv: (byte, byte), frag: byte, atyp: byte, octets: seq<byte>, port: Port): seq<byte>
    requires |octets| <= NAME_MAX
  {
    [rsv.0, rsv.1, frag, atyp] + LenOctet(atyp, octets) + octets + PortOctets(port)
  }

  lemma EncodingIsLayout(atyp: byte, src: seq<byte>, port: Port, frag: byte)
    requires Readable(atyp, src)
    ensures var octets, header := AddrOctets(atyp, src), EncodeUdpHeader(atyp, Some(src), port, frag);
            if Carries(atyp, octets) then header == Layout((0, 0), frag, atyp, octets, port) else header == []
  {
    var octets, field := AddrOctets(atyp, src), AddrField(atyp, Some(src));
    if Carries(atyp, octets) {
      assert field == [atyp] + (LenOctet(atyp, octets) + octets);
      assert [0, 0, frag] + field + PortOctets(port) == Layout((0, 0), frag, atyp, octets, port);
    } else {
      assert field == [];
    }
  }

  /** Any header laid out whole is read back, whatever follows it and whatever its RSV octets say. */
  lemma LayoutParses(rsv: (byte, byte), frag: byte, atyp: byte, octets: seq<byte>, port: Port, payload: seq<byte>)
    requires Carries(atyp, octets)
    ensures ParseUdpHeader(Some(Layout(rsv, frag, atyp, octets, port) + payload))
         == if frag == FRAG_NOT && |octets| <= UDP_NAME_MAX
            then Some(UdpDatagram(atyp, Padded(octets), port, |Layout(rsv, frag, atyp, octets, port)|)) else None
  {
    var bytes := Layout(rsv, frag, atyp, octets, port) + payload;
    var at := 4 + |LenOctet(atyp, octets)|;
    assert bytes[2] == frag && bytes[3] == atyp;
    assert atyp == DOMAINNAME ==> bytes[4] == |octets|;
    assert bytes[at..at + |octets|] == octets;
    assert bytes[at + |octets|] == port / 256 && bytes[at + |octets| + 1] == port % 256;
  }

  /** Anything accepted starts with a whole header, laid out for the fields that were read. */
  lemma ParsedIsLayout(data: seq<byte>) returns (octets: seq<byte>)
    requires ParseUdpHeader(Some(data)).Some?
    ensures var d := ParseUdpHeader(Some(data)).value;
            && Carries(d.atyp, octets) && |octets| <= UDP_NAME_MAX && d.addr == Padded(octets)
            && d.addr == octets + seq(16 - |octets|, _ => 0)
            && 8 <= d.headerSize <= |data|
            && data[..d.headerSize] == Layout((data[0], data[1]), FRAG_NOT, d.atyp, octets, d.port)
  {
    var d := ParseUdpHeader(Some(data)).value;
    var span := AddrSpan(data).value;
    octets := data[span.0..span.0 + span.1];
    assert data[span.0 + span.1] == d.port / 256 && data[span.0 + span.1 + 1] == d.port % 256;
  }

  // ------------------------------------------------------------ round trips

  /**
   * Building then parsing, whatever payload follows: the same address, port and header
   * size come back exactly when the datagram is whole and a name is short enough to hold.
   */
  lemma BuiltHeaderParses(atyp: byte, src: seq<byte>, port: Port, frag: byte, payload: seq<byte>)
    requires Readable(atyp, src) && EncodeUdpHeader(atyp, Some(src), port, frag) != []
    ensures ParseUdpHeader(Some(EncodeUdpHeader(atyp, Some(src), port, frag) + payload))
         == if frag == FRAG_NOT && |AddrOctets(atyp, src)| <= UDP_NAME_MAX
            then Some(UdpDatagram(
              atyp, Padded(AddrOctets(atyp, src)), port, |EncodeUdpHeader(atyp, Some(src), port, frag)|))
            else None
  {
    EncodingIsLayout(atyp, src, port, frag);
    LayoutParses((0, 0), frag, atyp, AddrOctets(atyp, src), port, payload);
  }

  /** A header cut anywhere is refused. */
  lemma CutHeaderIsRefused(atyp: byte, src: seq<byte>, port: Port, frag: byte, k: nat)
    requires Readable(atyp, src) && k < |EncodeUdpHeader(atyp, Some(src), port, frag)|
    ensures ParseUdpHeader(Some(EncodeUdpHeader(atyp, Some(src), port, frag)[..k])).None?
  {
    EncodingIsLayout(atyp, src, port, frag);
    var octets := AddrOctets(atyp, src);
    var header := Layout((0, 0), frag, atyp, octets, port);
    assert header[3] == atyp && (atyp == DOMAINNAME ==> header[4] == |octets|);
  }

  predicate NulFree(octets: seq<byte>) { 0 !in octets }

  /** The address of an accepted header as the builder reads it, names terminated. */
  function SourceOf(d: UdpDatagram): seq<byte>
    requires |d.addr| == UDP_NAME_MAX
  {
    if d.atyp == DOMAINNAME && 7 <= d.headerSize <= 7 + UDP_NAME_MAX then d.addr[..d.headerSize - 7] + [0] else d.addr
  }

  lemma TerminatedLength(octets: seq<byte>)
    ensures CLength(octets + [0]) <= |octets|
    ensures CLength(octets + [0]) == |octets| <==> NulFree(octets)
  {
    var n := CLength(octets + [0]);
    if n == |octets| {
      forall i | 0 <= i < |octets| ensures octets[i] != 0 {
        assert (octets + [0])[i] != 0;
      }
    }
  }

  lemma DecodedSource(d: UdpDatagram, octets: seq<byte>)
    requires Carries(d.atyp, octets) && |octets| <= UDP_NAME_MAX && d.addr == Padded(octets)
    requires d.headerSize == |Layout((0, 0), FRAG_NOT, d.atyp, octets, d.port)|
    ensures Readable(d.atyp, SourceOf(d))
    ensures AddrOctets(d.atyp, SourceOf(d)) == octets <==> d.atyp != DOMAINNAME || NulFree(octets)
    ensures |AddrOctets(d.atyp, SourceOf(d))| <= |octets|
    ensures AddrOctets(d.atyp, SourceOf(d)) != octets ==> |AddrOctets(d.atyp, SourceOf(d))| < |octets|
  {
    if d.atyp == DOMAINNAME {
      assert SourceOf(d) == octets + [0];
      TerminatedLength(octets);
    }
  }

  lemma LayoutRebuilds(d: UdpDatagram, octets: seq<byte>)
    requires Carries(d.atyp, octets) && |octets| <= UDP_NAME_MAX && d.addr == Padded(octets)
    requires d.headerSize == |Layout((0, 0), FRAG_NOT, d.atyp, octets, d.port)|
    ensures Readable(d.atyp, SourceOf(d))
    ensures EncodeUdpHeader(d.atyp, Some(SourceOf(d)), d.port, FRAG_NOT)
              == Layout((0, 0), FRAG_NOT, d.atyp, octets, d.port)
            <==> d.atyp != DOMAINNAME || NulFree(octets)
  {
    hide SourceOf, AddrOctets, EncodeUdpHeader;
    DecodedSource(d, octets);
    EncodingIsLayout(d.atyp, SourceOf(d), d.port, FRAG_NOT);
  }

  lemma LayoutSlices(rsv: (byte, byte), frag: byte, atyp: byte, octets: seq<byte>, port: Port)
    requires Carries(atyp, octets)
    ensures var header := Layout(rsv, frag, atyp, octets, port);
            && [0, 0] + header[2..] == Layout((0, 0), frag, atyp, octets, port)
            && |header| == |Layout((0, 0), frag, atyp, octets, port)|
            && (atyp == DOMAINNAME ==> header[5..|header| - 2] == octets)
  {
  }

  /**
   * Parsing then building: an accepted header is rebuilt octet for octet, its two RSV
   * octets zeroed, exactly when it carries no NUL inside a name.
   */
  lemma AcceptedHeaderRebuilds(data: seq<byte>)
    requires ParseUdpHeader(Some(data)).Some?
    ensures var d := ParseUdpHeader(Some(data)).value;
            && d.headerSize <= |data| && Readable(d.atyp, SourceOf(d))
            && (EncodeUdpHeader(d.atyp, Some(SourceOf(d)), d.port, FRAG_NOT) == [0, 0] + data[2..d.headerSize]
                <==> d.atyp != DOMAINNAME || NulFree(data[5..d.headerSize - 2]))
  {
    hide EncodeUdpHeader, ParseUdpHeader, SourceOf, Layout;
    var d := ParseUdpHeader(Some(data)).value;
    var octets := ParsedIsLayout(data);
    var header := data[..d.headerSize];
    LayoutSlices((data[0], data[1]), FRAG_NOT, d.atyp, octets, d.port);
    assert data[2..d.headerSize] == header[2..];
    assert d.atyp == DOMAINNAME ==> data[5..d.headerSize - 2] == header[5..d.headerSize - 2];
    LayoutRebuilds(d, octets);
  }
}
