/** Tunnel transparency: along a path of honest relays, of any depth, a tunnelled command ends exactly
    as the same command sent straight to the device at the end of the path. */
module Tunnel {
  import opened Wire
  import opened Cci
  import opened Mctp

  /** A device answers a request message, or stays silent. What it answers is arbitrary. */
  type Device = Bytes -> Option<Bytes>

  function Over(dev: Device): Bytes -> Recv {
    m => match dev(m) case None => TimedOut case Some(d) => Datagram(d)
  }

  // ---------------------------------------------------------------- honest relays

  /** A Tunnel Management Command, as its receiver parses it. */
  predicate IsTunnelReq(m: Bytes) {
    && |m| >= LEVEL
    && m[0] == CATEGORY_REQ && m[3] == TUNNEL_COMMAND && m[4] == MLD_PORT
    && Get16(m, 14) == |m| - LEVEL
  }

  /** The receiver routes by LD or port number, unless the target is the LD pool CCI. */
  predicate Routes(m: Bytes, hop: Hop)
    requires IsTunnelReq(m)
  {
    if hop == -1 then m[13] == 1 else m[13] == 0 && m[12] == hop % 256
  }

  /** `reply` is a successful tunnel response to `m` that carries `inner`. Reserved bytes, the
      vendor status and the flag bits of the length are free. */
  predicate Carries(reply: Bytes, m: Bytes, inner: Bytes)
    requires IsMessage(m)
  {
    && |reply| == LEVEL + |inner| && reply[LEVEL..] == inner
    && reply[0] == CATEGORY_RSP && Tag(reply) == Tag(m) && SameOpcode(reply, m)
    && ReturnCode(reply) == 0 && PayloadLength(reply) == TUNNEL_HEADER + |inner|
    && Get16(reply, HEADER) == |inner|
  }

  predicate Relayed(reply: Option<Bytes>, m: Bytes, inner: Option<Bytes>)
    requires IsMessage(m)
  {
    match inner
    case None => reply == None
    case Some(r) => |r| <= 0xFFFF ==> reply.Some? && Carries(reply.value, m, r)
  }

  /** `dev` unwraps every tunnel request for `hop`, has `next` execute it and wraps the answer. */
  ghost predicate Relays(dev: Device, hop: Hop, next: Device) {
    forall m: Bytes {:trigger dev(m)} ::
      IsTunnelReq(m) && Routes(m, hop) ==> Relayed(dev(m), m, next(m[LEVEL..]))
  }

  /** A relay that meets the assumption, whatever it does with messages that are not tunnelled. */
  function Relay(own: Device, next: Device): Device {
    m => if !IsTunnelReq(m) then own(m)
         else match next(m[LEVEL..]) case None => None case Some(r) => Some(TunnelRsp(m, r))
  }

  function TunnelRsp(m: Bytes, inner: Bytes): Bytes
    requires IsMessage(m)
  {
    var pl := TUNNEL_HEADER + |inner|;
    [CATEGORY_RSP, Tag(m), 0, m[3], m[4], pl % 256, pl / 256 % 256, pl / 65536 % 16, 0, 0, 0, 0] +
    (Le16(|inner|) + [0, 0]) + inner
  }

  lemma RelayIsHonest(own: Device, next: Device, hop: Hop)
    ensures Relays(Relay(own, next), hop, next)
  {
    forall m: Bytes | IsTunnelReq(m)
      ensures Relayed(Relay(own, next)(m), m, next(m[LEVEL..]))
    {
      var r := next(m[LEVEL..]);
      if r.Some? && |r.value| <= 0xFFFF { TunnelRspCarries(m, r.value); }
    }
  }

  lemma TunnelRspCarries(m: Bytes, inner: Bytes)
    requires IsMessage(m) && |inner| <= 0xFFFF
    ensures Carries(TunnelRsp(m, inner), m, inner)
  {
    var reply := TunnelRsp(m, inner);
    Split20(TUNNEL_HEADER + |inner|);
    Get16OfLe16(|inner|, reply, HEADER);
    assert reply[LEVEL..] == inner;
  }

  /** `devs[0]` is the component the endpoint talks to, the last device executes the command. */
  ghost predicate HonestPath(devs: seq<Device>, hops: seq<Hop>) {
    |devs| == |hops| + 1 && forall i :: 0 <= i < |hops| ==> Relays(devs[i], hops[i], devs[i + 1])
  }

  /** The length fields of the tunnel headers are 16 bits wide. */
  predicate FitsTunnels(len: nat, depth: nat) { depth > 0 ==> len + 16 * (depth - 1) <= 0xFFFF }

  // ---------------------------------------------------------------- the nested response

  /** `d` is `r` wrapped once per hop in answers to the nested requests. */
  ghost predicate NestedReply(hops: seq<Hop>, tag: int, req: Bytes, d: Bytes, r: Bytes)
    requires IsMessage(req)
  {
    if hops == [] then d == r
    else
      && |d| >= LEVEL
      && Carries(d, Nest(hops, tag, req), d[LEVEL..])
      && NestedReply(hops[1..], tag, req, d[LEVEL..], r)
  }

  lemma {:induction false} NestedReplyLength(hops: seq<Hop>, tag: int, req: Bytes, d: Bytes, r: Bytes)
    requires IsMessage(req) && NestedReply(hops, tag, req, d, r)
    ensures |d| == 16 * |hops| + |r|
  {
    if hops != [] { NestedReplyLength(hops[1..], tag, req, d[LEVEL..], r); }
  }

  lemma TunnelReqParses(hop: Hop, tag: int, inner: Bytes)
    requires |inner| <= 0xFFFF
    ensures IsTunnelReq(TunnelReq(hop, tag, inner)) && Routes(TunnelReq(hop, tag, inner), hop)
  {
    var m := TunnelReq(hop, tag, inner);
    Get16OfLe16(|inner|, m, 14);
    assert forall i :: 0 <= i < HEADER ==> m[i] == m[..HEADER][i];
  }

  lemma RelayAnswers(dev: Device, hop: Hop, next: Device, tag: int, inner: Bytes)
    requires Relays(dev, hop, next) && |inner| <= 0xFFFF
    ensures var m := TunnelReq(hop, tag, inner); Relayed(dev(m), m, next(inner))
  {
    TunnelReqParses(hop, tag, inner);
  }

  /** The answer to a nested request: silence, or the target's answer wrapped once per hop. */
  ghost predicate PathReply(hops: seq<Hop>, tag: int, req: Bytes, d: Option<Bytes>, r: Option<Bytes>)
    requires IsMessage(req)
  {
    match r
    case None => d == None
    case Some(inner) => d.Some? && NestedReply(hops, tag, req, d.value, inner)
  }

  lemma PathStep(dev: Device, next: Device, hops: seq<Hop>, tag: int, req: Bytes, r: Option<Bytes>)
    requires IsMessage(req) && hops != [] && Relays(dev, hops[0], next)
    requires 16 * |hops[1..]| + |req| <= 0xFFFF && (r.Some? ==> 16 * |hops[1..]| + |r.value| <= 0xFFFF)
    requires PathReply(hops[1..], tag, req, next(Nest(hops[1..], tag, req)), r)
    ensures PathReply(hops, tag, req, dev(Nest(hops, tag, req)), r)
  {
    var inner := Nest(hops[1..], tag, req);
    RelayAnswers(dev, hops[0], next, tag + |hops| - 1, inner);
    if r.Some? { NestedReplyLength(hops[1..], tag, req, next(inner).value, r.value); }
  }

  lemma PathRest(devs: seq<Device>, hops: seq<Hop>)
    requires HonestPath(devs, hops) && hops != []
    ensures Relays(devs[0], hops[0], devs[1]) && HonestPath(devs[1..], hops[1..])
  {
  }

  /** A request that fits is one whose every inner message fits the 16 bits; one that does not fit is no
      tunnel request to its receiver. */
  lemma FitsIff(hops: seq<Hop>, tag: int, req: Bytes)
    requires hops != []
    ensures FitsTunnels(|req|, |hops|) <==> |Nest(hops[1..], tag, req)| <= 0xFFFF
    ensures FitsTunnels(|req|, |hops|) <==> IsTunnelReq(Nest(hops, tag, req))
  {
    var inner := Nest(hops[1..], tag, req);
    if |inner| <= 0xFFFF {
      TunnelReqParses(hops[0], tag + |hops| - 1, inner);
    } else {
      assert Get16(Nest(hops, tag, req), 14) <= 0xFFFF;
    }
  }

  /** A tunnel request is for one target only, up to the low byte of its number. */
  lemma RoutesToOne(m: Bytes, hop: Hop, other: Hop)
    requires IsTunnelReq(m) && Routes(m, hop) && Routes(m, other)
    ensures hop == -1 <==> other == -1
    ensures hop % 256 == other % 256
  {
  }

  /** What the first device of an honest path answers to the nested request. */
  lemma {:induction false} PathAnswers(devs: seq<Device>, hops: seq<Hop>, tag: int, req: Bytes)
    requires HonestPath(devs, hops) && IsMessage(req) && FitsTunnels(|req|, |hops|)
    requires var r := devs[|hops|](req); r.Some? ==> FitsTunnels(|r.value|, |hops|)
    ensures PathReply(hops, tag, req, devs[0](Nest(hops, tag, req)), devs[|hops|](req))
  {
    if hops != [] {
      PathRest(devs, hops);
      PathAnswers(devs[1..], hops[1..], tag, req);
      PathStep(devs[0], devs[1], hops, tag, req, devs[|hops|](req));
    }
  }

  // ---------------------------------------------------------------- transparency

  /** The verdict on a datagram that fits the buffer of a nested request. */
  function Verdict(hops: seq<Hop>, tag: int, req: Bytes, d: Bytes, sz: nat, szMin: nat): Result
    requires IsMessage(req) && sz >= HEADER && |d| <= 16 * |hops| + sz
  {
    Unwind(|hops|, Nest(hops, tag, req), Filled(d, 16 * |hops| + sz), |d|, sz, szMin)
  }

  /** A nested response that fits the caller's buffer unwinds to the verdict on the innermost one. */
  lemma {:induction false} UnwindReaches(hops: seq<Hop>, tag: int, req: Bytes, d: Bytes, r: Bytes, sz: nat, szMin: nat)
    requires IsMessage(req) && NestedReply(hops, tag, req, d, r) && |r| <= sz && sz >= HEADER
    ensures |d| == 16 * |hops| + |r|
    ensures Verdict(hops, tag, req, d, sz, szMin) == Verdict([], tag, req, r, sz, szMin)
  {
    NestedReplyLength(hops, tag, req, d, r);
    if hops != [] {
      UnwindReaches(hops[1..], tag, req, d[LEVEL..], r, sz, szMin);
      LevelPeeled(hops, tag, req, d, sz, szMin);
    }
  }

  lemma LevelPeeled(hops: seq<Hop>, tag: int, req: Bytes, d: Bytes, sz: nat, szMin: nat)
    requires hops != [] && IsMessage(req) && sz >= HEADER && LEVEL <= |d| <= 16 * |hops| + sz
    requires Carries(d, Nest(hops, tag, req), d[LEVEL..])
    ensures Verdict(hops, tag, req, d, sz, szMin) == Verdict(hops[1..], tag, req, d[LEVEL..], sz, szMin)
  {
    var sent, buf := Nest(hops, tag, req), Filled(d, 16 * |hops| + sz);
    assert buf[LEVEL..] == Filled(d[LEVEL..], 16 * |hops[1..]| + sz);
    OuterLevelPasses(sent, d, buf);
    UnwindLevel(|hops|, sent, buf, |d|, sz, szMin);
  }

  lemma DeliverDatagram(hops: seq<Hop>, tag: int, req: Bytes, d: Bytes, sz: nat, szMin: nat)
    requires IsMessage(req) && sz >= HEADER && |d| <= 16 * |hops| + sz
    ensures Deliver(|hops|, Nest(hops, tag, req), Datagram(d), sz, szMin) == Verdict(hops, tag, req, d, sz, szMin)
  {
  }

  lemma FittingAgrees(hops: seq<Hop>, tag: int, req: Bytes, d: Bytes, r: Bytes, sz: nat, szMin: nat)
    requires IsMessage(req) && NestedReply(hops, tag, req, d, r) && |r| <= sz && sz >= HEADER
    ensures Deliver(|hops|, Nest(hops, tag, req), Datagram(d), sz, szMin)
         == Deliver(0, Nest([], tag, req), Datagram(r), sz, szMin)
  {
    UnwindReaches(hops, tag, req, d, r, sz, szMin);
    DeliverDatagram(hops, tag, req, d, sz, szMin);
    DeliverDatagram([], tag, req, r, sz, szMin);
  }

  lemma OuterLevelPasses(sent: Bytes, d: Bytes, buf: Bytes)
    requires IsMessage(sent) && |d| >= LEVEL && Carries(d, sent, d[LEVEL..])
    requires |buf| >= |d| && buf[..|d|] == d
    ensures SanityCheck(sent, buf, |d|, false, LEVEL) == 0 && Get16(buf, HEADER) == |d| - LEVEL
  {
    assert forall i :: 0 <= i < |d| ==> buf[i] == buf[..|d|][i];
  }

  /** A nested response that overflows the caller's buffer is refused: the datagram is cut short and
      the outermost payload length no longer matches. */
  lemma OverflowRefused(hops: seq<Hop>, tag: int, req: Bytes, d: Bytes, r: Bytes, sz: nat, szMin: nat)
    requires hops != [] && IsMessage(req) && NestedReply(hops, tag, req, d, r) && |r| > sz >= HEADER
    ensures Deliver(|hops|, Nest(hops, tag, req), Datagram(d), sz, szMin) == Fail(-1)
  {
    NestedReplyLength(hops, tag, req, d, r);
    var buf := Filled(d, 16 * |hops| + sz);
    assert forall i :: 0 <= i < LEVEL ==> buf[i] == d[i];
    assert PayloadLength(buf) == PayloadLength(d);
  }

  /** The main result, for every depth, target behaviour, request and buffer within the 16-bit tunnel
      lengths: the tunnelled command has the code and the response bytes of the direct one, except
      that a response too long for the caller's buffer is always refused. */
  lemma Transparency(devs: seq<Device>, hops: seq<Hop>, tag: int, req: Bytes, sz: nat, szMin: nat)
    requires HonestPath(devs, hops) && IsMessage(req) && sz >= HEADER && FitsTunnels(|req|, |hops|)
    requires var r := devs[|hops|](req); r.Some? ==> FitsTunnels(|r.value|, |hops|)
    ensures var r := devs[|hops|](req);
            Exchange(hops, tag, req, sz, szMin, Over(devs[0])) ==
            if hops != [] && r.Some? && |r.value| > sz then Fail(-1)
            else Exchange([], tag, req, sz, szMin, Over(devs[|hops|]))
  {
    PathAnswers(devs, hops, tag, req);
    var r := devs[|hops|](req);
    if hops != [] && r.Some? {
      var d := devs[0](Nest(hops, tag, req)).value;
      if |r.value| > sz {
        OverflowRefused(hops, tag, req, d, r.value, sz, szMin);
      } else {
        FittingAgrees(hops, tag, req, d, r.value, sz, szMin);
      }
    }
  }

  /** The reply has the category of a response, and the tag and opcode of the request. */
  predicate Echoes(r: Bytes, req: Bytes)
    requires IsMessage(r) && IsMessage(req)
  {
    r[0] == CATEGORY_RSP && Tag(r) == Tag(req) && SameOpcode(r, req)
  }

  /** An overlong reply that the direct command refuses as well, read off its bytes: it is no reply to
      the request, or it reports success and the cut-off length is too short or not the stated one. */
  predicate RefusedCutOff(req: Bytes, r: Bytes, sz: nat, szMin: nat)
    requires IsMessage(r) && IsMessage(req)
  {
    !Echoes(r, req) || (ReturnCode(r) == 0 && (sz < szMin || PayloadLength(r) != sz - HEADER))
  }

  lemma CutOffVerdict(req: Bytes, r: Bytes, sz: nat, szMin: nat)
    requires IsMessage(req) && HEADER <= sz < |r|
    ensures SanityCheck(req, Filled(r, sz), sz, sz == szMin, szMin) == -1 <==> RefusedCutOff(req, r, sz, szMin)
  {
    var buf := Filled(r, sz);
    assert forall i :: 0 <= i < HEADER ==> buf[i] == r[i];
    assert PayloadLength(buf) == PayloadLength(r) && ReturnCode(buf) == ReturnCode(r);
  }

  /** So the two agree exactly when the response fits the buffer, or is refused cut off as well. */
  lemma AgreesIff(devs: seq<Device>, hops: seq<Hop>, tag: int, req: Bytes, sz: nat, szMin: nat, r: Bytes)
    requires HonestPath(devs, hops) && hops != [] && IsMessage(req) && sz >= HEADER
    requires FitsTunnels(|req|, |hops|) && devs[|hops|](req) == Some(r) && FitsTunnels(|r|, |hops|)
    ensures Exchange(hops, tag, req, sz, szMin, Over(devs[0])) == Exchange([], tag, req, sz, szMin, Over(devs[|hops|]))
       <==> |r| <= sz || RefusedCutOff(req, r, sz, szMin)
  {
    Transparency(devs, hops, tag, req, sz, szMin);
    if |r| > sz { CutOffVerdict(req, r, sz, szMin); }
  }

  /** For a target that answers by the protocol, with its length stated right: they agree exactly when the
      response fits or reports success. */
  lemma ProtocolAgreesIff(devs: seq<Device>, hops: seq<Hop>, tag: int, req: Bytes, sz: nat, szMin: nat, r: Bytes)
    requires HonestPath(devs, hops) && hops != [] && IsMessage(req) && sz >= HEADER
    requires FitsTunnels(|req|, |hops|) && devs[|hops|](req) == Some(r) && FitsTunnels(|r|, |hops|)
    requires IsMessage(r) && Echoes(r, req) && PayloadLength(r) == |r| - HEADER
    ensures Exchange(hops, tag, req, sz, szMin, Over(devs[0])) == Exchange([], tag, req, sz, szMin, Over(devs[|hops|]))
       <==> |r| <= sz || ReturnCode(r) == 0
  {
    AgreesIff(devs, hops, tag, req, sz, szMin, r);
  }

  /** An error reply cut off behind its header still reports its error to a direct command. */
  lemma ErrorSurvivesCut(tag: int, req: Bytes, r: Bytes, link: Bytes -> Recv)
    requires IsMessage(req) && link(req) == Datagram(r) && |r| > 12 && Echoes(r, req) && ReturnCode(r) != 0
    ensures Exchange([], tag, req, 12, 12, link) == Fail(ReturnCode(r))
  {
    var buf := Filled(r, 12);
    assert forall i :: 0 <= i < 12 ==> buf[i] == r[i];
    SanityCheckExact(req, buf, 12, true, 12);
  }

  function ErrorReply(): Bytes { [1, 0, 0, 1, 0, 1, 0, 0, 2, 0, 0, 0, 7] }

  /** The smallest difference: an error reply with one byte of payload, and a buffer for none. Sent
      directly the command returns the error, through a tunnel it returns -1. */
  lemma OverlongErrorDiffers(own: Device, hop: Hop) returns (target: Device, req: Bytes)
    ensures IsMessage(req)
    ensures Exchange([], 0, req, 12, 12, Over(target)) == Fail(2)
    ensures Exchange([hop], 0, req, 12, 12, Over(Relay(own, target))) == Fail(-1)
  {
    req := RequestHeader(0, 1, 0, 0);
    target := m => Some(ErrorReply());
    ErrorSurvivesCut(0, req, ErrorReply(), Over(target));
    RelayIsHonest(own, target, hop);
    TunnelledError(Relay(own, target), hop, target, req);
  }

  lemma TunnelledError(relay: Device, hop: Hop, target: Device, req: Bytes)
    requires IsMessage(req) && |req| <= 0xFFFF && Relays(relay, hop, target) && target(req) == Some(ErrorReply())
    ensures Exchange([hop], 0, req, 12, 12, Over(relay)) == Fail(-1)
  {
    Transparency([relay, target], [hop], 0, req, 12, 12);
  }
}
