/**
 * What the SOCKS5 client answers when it is not granted anything, and everything it put
 * on the wire when it was: the failure half of the conversation, told of octets.
 */
module Socks5Outcomes {
  import opened Basics
  import opened Socks5Codec
  import opened Socks5Wire

  // ------------------------------------------------------------ replies that grant nothing

  /** The stream starts with a reply whose REP is not success. */
  predicate StartsWithRefusal(stream: seq<byte>) {
    |stream| >= 4 && stream[0] == 5 && stream[1] != 0
  }

  /** A refusal is read as such, its REP kept, whatever its other octets, and costs four octets. */
  lemma RefusedExactlyWhen(w: Wire)
    ensures ReadReply(w).verdict == RefusedRep <==> StartsWithRefusal(w.incoming)
    ensures StartsWithRefusal(w.incoming) ==>
              ReadReply(w).rep == Some(w.incoming[1]) && ReadReply(w).wire.incoming == w.incoming[4..]
  {
  }

  /** How much of a granted reply must have arrived before what is missing is part of its address. */
  function Promised(bnd: Relay): nat { if bnd.Named? then 5 else 4 }

  /** The stream is a granted reply cut inside its address or port. */
  ghost predicate IsCutGrant(stream: seq<byte>) {
    exists rsv: byte, b: Relay ::
      Statable(b) && Promised(b) <= |stream| < |EncodeReply(rsv, b)| && stream <= EncodeReply(rsv, b)
  }

  lemma NumericCut(w: Wire, rsv: byte, b: Relay)
    requires b.Numeric? && Statable(b)
    requires |w.incoming| < |EncodeReply(rsv, b)| && w.incoming <= EncodeReply(rsv, b)
    ensures ReadReply(w).verdict == if |w.incoming| >= 4 then Truncated else ProtocolError
  {
    var whole, k := EncodeReply(rsv, b), |w.incoming|;
    assert w.incoming == whole[..k];
    if k >= 4 {
      assert w.incoming[0] == whole[0] && w.incoming[1] == whole[1] && w.incoming[3] == whole[3];
    }
  }

  lemma NamedCut(w: Wire, rsv: byte, b: Relay)
    requires b.Named? && Statable(b)
    requires |w.incoming| < |EncodeReply(rsv, b)| && w.incoming <= EncodeReply(rsv, b)
    ensures ReadReply(w).verdict == if |w.incoming| >= 5 then Truncated else ProtocolError
  {
    var whole, k := EncodeReply(rsv, b), |w.incoming|;
    assert w.incoming == whole[..k];
    if k >= 4 {
      assert w.incoming[0] == whole[0] && w.incoming[1] == whole[1] && w.incoming[3] == whole[3];
      if k >= 5 {
        assert w.incoming[4] == whole[4];
      }
    }
  }

  /** A granted reply cut short is truncated once its address was promised, and a protocol error before. */
  lemma CutReplyVerdict(w: Wire, rsv: byte, b: Relay)
    requires Statable(b) && |w.incoming| < |EncodeReply(rsv, b)| && w.incoming <= EncodeReply(rsv, b)
    ensures ReadReply(w).verdict == if |w.incoming| >= Promised(b) then Truncated else ProtocolError
  {
    if b.Named? {
      NamedCut(w, rsv, b);
    } else {
      NumericCut(w, rsv, b);
    }
  }

  /** A stream with the missing octets of its reply made up. */
  function Completed(stream: seq<byte>, size: nat): (whole: seq<byte>)
    requires |stream| <= size
    ensures |whole| == size && stream <= whole
  {
    stream + seq(size - |stream|, _ => 0)
  }

  lemma ShortNumericIsCut(s: seq<byte>, field: nat)
    requires 4 <= |s| < field + 6 && s[0] == 5 && s[1] == 0
    requires (s[3] == IPV4 && field == 4) || (s[3] == IPV6 && field == 16)
    ensures IsCutGrant(s)
  {
    var whole := Completed(s, field + 6);
    var b := Numeric(s[3], whole[4..4 + field], PortOf(whole[4 + field], whole[5 + field]));
    assert whole[..4] == s[..4] == [5, 0, s[2], s[3]];
    assert whole == whole[..4] + whole[4..4 + field] + [whole[4 + field], whole[5 + field]];
    assert EncodeReply(s[2], b) == whole;
  }

  lemma ShortNameIsCut(s: seq<byte>)
    requires 5 <= |s| && |s| - 7 < s[4] && s[0] == 5 && s[1] == 0 && s[3] == DOMAINNAME && s[4] != 0
    ensures IsCutGrant(s)
  {
    var len: nat := s[4];
    var whole := Completed(s, len + 7);
    var b := Named(whole[5..5 + len], PortOf(whole[5 + len], whole[6 + len]));
    assert whole[..5] == s[..5] == [5, 0, s[2], DOMAINNAME, len];
    assert whole == whole[..5] + whole[5..5 + len] + [whole[5 + len], whole[6 + len]];
    assert EncodeReply(s[2], b) == whole;
  }

  lemma TruncatedMeansShort(w: Wire)
    requires ReadReply(w).verdict == Truncated
    ensures var s := w.incoming;
            && |s| >= 4 && s[0] == 5 && s[1] == 0
            && ((s[3] == IPV4 && |s| < 10) || (s[3] == IPV6 && |s| < 22)
                || (s[3] == DOMAINNAME && |s| >= 5 && s[4] != 0 && |s| - 7 < s[4]))
  {
  }

  lemma TruncatedMeansCut(w: Wire)
    requires ReadReply(w).verdict == Truncated
    ensures IsCutGrant(w.incoming)
  {
    TruncatedMeansShort(w);
    hide ReadReply, IsCutGrant;
    if w.incoming[3] == DOMAINNAME {
      ShortNameIsCut(w.incoming);
    } else {
      ShortNumericIsCut(w.incoming, if w.incoming[3] == IPV4 then 4 else 16);
    }
  }

  /** Truncated is answered exactly for a granted reply cut inside its own address or port. */
  lemma TruncatedExactlyWhen(w: Wire)
    ensures ReadReply(w).verdict == Truncated <==> IsCutGrant(w.incoming)
  {
    hide ReadReply, EncodeReply;
    if ReadReply(w).verdict == Truncated {
      TruncatedMeansCut(w);
    }
    if IsCutGrant(w.incoming) {
      var rsv: byte, b: Relay :| Statable(b) && Promised(b) <= |w.incoming| < |EncodeReply(rsv, b)|
                                 && w.incoming <= EncodeReply(rsv, b);
      CutReplyVerdict(w, rsv, b);
    }
  }

  // ------------------------------------------------------------ requests

  /** A server that refuses a request has its own REP octet handed to the caller, the rest of the stream unread. */
  lemma RefusalIsHandedOn(w: Wire, frame: seq<byte>, rep: byte, rsv: byte, atyp: byte, rest: seq<byte>)
    requires frame != [] && w.sendsLeft > 0 && rep != 0
    requires w.incoming == [5, rep, rsv, atyp] + rest
    ensures RequestEx(w, frame).1 == rep && RequestEx(w, frame).0.incoming == rest
  {
    hide ReadReply;
    RefusedExactlyWhen(w.Send(frame));
    assert w.incoming[4..] == rest;
  }

  /**
   * Every answer of a request: 4 with nothing read when the frame is missing or does not
   * go out; the server's REP for a refusal; 0 for a whole numeric grant; 4 for all else.
   */
  lemma RequestAnswersExactly(w: Wire, frame: seq<byte>)
    ensures var code := RequestEx(w, frame).1;
            if frame == [] || w.sendsLeft == 0 then code == 4 && RequestEx(w, frame).0 == w
            else if StartsWithRefusal(w.incoming) then code == w.incoming[1]
            else if exists rest :: StartsWithGrant(w.incoming, rest) then code == 0
            else code == 4
  {
    if frame != [] && w.sendsLeft > 0 {
      var asked := w.Send(frame);
      RefusedExactlyWhen(asked);
      SuccessMeansGranted(w, frame, RequestEx(w, frame).0.incoming);
      hide ReadReply;
      if rest :| StartsWithGrant(w.incoming, rest) {
        SuccessMeansGranted(w, frame, rest);
        hide StartsWithGrant;
      }
    }
  }

  /** The events after the first n are all receptions. */
  ghost predicate OnlyReads(log: seq<Event>, n: nat) {
    n <= |log| && forall e :: n <= e < |log| ==> log[e].Got?
  }

  lemma BoundOnlyReads(w: Wire, atyp: byte, field: nat)
    requires 1 <= field <= NAME_MAX
    ensures ReadBound(w, atyp, field).wire.log == w.log + [Got(w.Available(field + 2))]
    ensures ReadBound(w, atyp, field).wire.sendsLeft == w.sendsLeft
  {
  }

  lemma ReplyOnlyReads(w: Wire)
    ensures w.log <= ReadReply(w).wire.log && OnlyReads(ReadReply(w).wire.log, |w.log|)
    ensures ReadReply(w).wire.sendsLeft == w.sendsLeft
  {
    hide ReadBound;
    var got := w.Recv(4);
    BoundOnlyReads(got, IPV4, 4);
    BoundOnlyReads(got, IPV6, 16);
    var len := got.Available(1);
    if |len| == 1 && len[0] != 0 {
      BoundOnlyReads(got.Recv(1), DOMAINNAME, len[0]);
    }
  }

  /** A request that can be sent is sent, once and before anything is read, and nothing else is. */
  lemma RequestTranscript(w: Wire, frame: seq<byte>)
    requires frame != [] && w.sendsLeft > 0
    ensures var after := RequestEx(w, frame).0;
            after.log[..|w.log| + 1] == w.log + [Sent(frame)] && OnlyReads(after.log, |w.log| + 1)
  {
    hide ReadReply;
    ReplyOnlyReads(w.Send(frame));
  }

  // ------------------------------------------------------------ the handshake

  /** The greeting offers the login, first, exactly when there is a username or a password to send. */
  lemma GreetingOffersTheLogin(w: Wire, creds: Credentials)
    requires w.sendsLeft > 0
    ensures |Handshake(w, creds).wire.log| > |w.log|
    ensures Handshake(w, creds).wire.log[|w.log|]
         == Sent(if creds.username == [] && creds.password == [] then [5, 1, 0] else [5, 2, 2, 0])
  {
    assert EncodeGreeting(Some(Offered(creds)))
        == if creds.username == [] && creds.password == [] then [5, 1, 0] else [5, 2, 2, 0];
  }

  /** Everything a successful handshake puts on the wire, in order. */
  lemma SuccessfulHandshakeLog(w: Wire, creds: Credentials)
    requires Handshake(w, creds).ok
    ensures var greeting := Sent(if creds.username == [] && creds.password == [] then [5, 1, 0] else [5, 2, 2, 0]);
            var login := [1, |creds.username|] + creds.username + [|creds.password|] + creds.password;
            Handshake(w, creds).wire.log
            == w.log + (if StartsWith(w.incoming, [5, 0]) then [greeting, Got([5, 0])]
                        else [greeting, Got([5, 2]), Sent(login), Got([1, 0])])
    ensures !StartsWith(w.incoming, [5, 0]) ==> creds.username != [] || creds.password != []
  {
    assert EncodeGreeting(Some(Offered(creds)))
        == if creds.username == [] && creds.password == [] then [5, 1, 0] else [5, 2, 2, 0];
    assert w.incoming[..2] == [w.incoming[0], w.incoming[1]];
    if !StartsWith(w.incoming, [5, 0]) {
      assert w.incoming[2..][..2] == [1, 0];
    }
  }

  // ------------------------------------------------------------ ASSOCIATE

  /** The hint a request carries: the caller's own, or 0.0.0.0:0 for a family it cannot carry. */
  function HintCarried(hint: Hint): Hint {
    if hint.OtherFamily? then Inet([0, 0, 0, 0], 0) else hint
  }

  /** The ASSOCIATE frame states command 3 and the address and port of the hint, octet for octet. */
  lemma FrameCarriesTheHint(hint: Hint)
    requires HintOk(hint)
    ensures AssociateFrame(hint)
         == match HintCarried(hint)
            case Inet(octets, port) => [5, 3, 0, 1] + octets + [port / 256, port % 256]
            case Inet6(octets, port) => [5, 3, 0, 4] + octets + [port / 256, port % 256]
            case OtherFamily => []
  {
    match hint
    case Inet(octets, port) =>
      assert [SOCKS_VERSION, UDP_ASSOCIATE, 0] + ([IPV4] + octets[..4]) == [5, 3, 0, 1] + octets;
    case Inet6(octets, port) =>
      assert [SOCKS_VERSION, UDP_ASSOCIATE, 0] + ([IPV6] + octets[..16]) == [5, 3, 0, 4] + octets;
    case OtherFamily =>
      var any: seq<byte> := [0, 0, 0, 0];
      assert [SOCKS_VERSION, UDP_ASSOCIATE, 0] + ([IPV4] + any[..4]) == [5, 3, 0, 1] + any;
  }

  /** After a handshake that went through, the request is sent, once and next, and then the reply is only read. */
  lemma AssociateTranscript(w: Wire, creds: Credentials, hint: Hint)
    requires HintOk(hint) && Handshake(w, creds).ok && Handshake(w, creds).wire.sendsLeft > 0
    ensures var before, after := Handshake(w, creds).wire.log, Associate(w, creds, hint).wire.log;
            after[..|before| + 1] == before + [Sent(AssociateFrame(hint))] && OnlyReads(after, |before| + 1)
  {
    hide Handshake, ReadReply, AssociateFrame;
    ReplyOnlyReads(Handshake(w, creds).wire.Send(AssociateFrame(hint)));
  }

  /** A handshake that failed is reported as refused with a general failure, and nothing is asked for. */
  lemma RefusedLoginIsNeverDowngraded(w: Wire, creds: Credentials, hint: Hint)
    requires HintOk(hint) && !Handshake(w, creds).ok
    ensures var a := Associate(w, creds, hint);
            a.verdict == RefusedRep && a.rep == Some(4) && a.bnd == None && a.wire == Handshake(w, creds).wire
  {
  }

  /**
   * After a handshake that went through, ASSOCIATE answers what the reply deserves and the
   * REP it stated, or 4 when it stated none; a request that cannot go out is a protocol error.
   */
  lemma AssociateAnswersExactly(w: Wire, creds: Credentials, hint: Hint)
    requires HintOk(hint) && Handshake(w, creds).ok
    ensures var a, shaken := Associate(w, creds, hint), Handshake(w, creds).wire;
            var heard := shaken.incoming;
            if shaken.sendsLeft == 0 then a.verdict == ProtocolError && a.rep == Some(4) && a.wire == shaken
            else
              && (a.verdict == RefusedRep <==> StartsWithRefusal(heard))
              && (a.verdict == Truncated <==> IsCutGrant(heard))
              && a.rep == Some(if |heard| >= 4 && heard[0] == 5 then heard[1] else 4)
  {
    var shaken := Handshake(w, creds).wire;
    if shaken.sendsLeft > 0 {
      var asked := shaken.Send(AssociateFrame(hint));
      RefusedExactlyWhen(asked);
      TruncatedExactlyWhen(asked);
      RepIsWhatWasStated(asked);
    }
  }

  lemma RepIsWhatWasStated(w: Wire)
    ensures ReadReply(w).rep == if |w.incoming| >= 4 && w.incoming[0] == 5 then Some(w.incoming[1]) else None
  {
  }
}
