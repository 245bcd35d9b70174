/** Sending a command to an MCTP endpoint: directly, or wrapped in one or two Tunnel Management
    Commands (section 7.6.7.3.2 of CXL r3.1) whose nested response is unwound level by level. */
module Mctp {
  import opened Wire
  import opened Cci

  const TUNNEL_HEADER: nat := 4
  const LEVEL: nat := HEADER + TUNNEL_HEADER   // bytes that one level of tunnelling adds
  const SIZE_MAX: nat := 0xFFFF_FFFF_FFFF_FFFF // (size_t)-1, the length of a failed receive

  /** What the socket layer reports for one request. */
  datatype Recv = SendFailed | PollFailed | TimedOut | RecvFailed | Datagram(bytes: Bytes)

  /** How a command ends: a non-zero return code, or success and the filled response buffer. */
  datatype Result = Fail(rc: int) | Done(rsp: Bytes)

  datatype TunnelInfo = TunnelInfo(port: int, ld: int, level: int)

  // ---------------------------------------------------------------- wrapping a request

  /** A port or LD number, with -1 standing for the LD pool CCI. */
  type Hop = int

  /** A tunnel request for one hop: the target's number, whether it is the LD pool, and the inner request. */
  function TunnelReq(hop: Hop, tag: int, inner: Bytes): (m: Bytes)
    ensures |m| == LEVEL + |inner| && m[LEVEL..] == inner
    ensures m[..HEADER] == RequestHeader(tag, TUNNEL_COMMAND, MLD_PORT, TUNNEL_HEADER + |inner|)
    ensures if hop == -1 then m[13] == 1 else m[13] == 0 && m[12] == hop % 256
    ensures m[14..16] == Le16(|inner|)
  {
    RequestHeader(tag, TUNNEL_COMMAND, MLD_PORT, TUNNEL_HEADER + |inner|) +
    ([hop % 256, if hop == -1 then 1 else 0] + Le16(|inner|)) + inner
  }

  /** `req` wrapped for every hop of a path, outermost hop first. The innermost wrapper takes tag
      `tag`, the next one `tag + 1` and so on outwards. */
  function Nest(hops: seq<Hop>, tag: int, req: Bytes): (m: Bytes)
    ensures |m| == 16 * |hops| + |req|
  {
    if hops == [] then req
    else TunnelReq(hops[0], tag + |hops| - 1, Nest(hops[1..], tag, req))
  }

  lemma TunnelReqBytes(hop: Hop, tag: int, inner: Bytes)
    ensures var m := TunnelReq(hop, tag, inner);
            && m[0] == 0 && m[1] == tag % 256 && m[3] == 0x00 && m[4] == 0x53
            && m[14] == |inner| % 256 && m[15] == |inner| / 256 % 256
            && (|inner| < 0xF_FFFC ==> PayloadLength(m) == 4 + |inner|)
  {
    var m := TunnelReq(hop, tag, inner);
    RequestHeaderReads(tag, TUNNEL_COMMAND, MLD_PORT, TUNNEL_HEADER + |inner|);
    assert forall i :: 0 <= i < HEADER ==> m[i] == m[..HEADER][i];
    assert m[14] == m[14..16][0] && m[15] == m[14..16][1];
  }

  // ---------------------------------------------------------------- unwinding a response

  /** Check and peel `n` tunnel levels off a response, then check the innermost message. `sz` is the
      caller's buffer, `szMin` the shortest acceptable innermost message. */
  function Unwind(n: nat, sent: Bytes, buf: Bytes, len: nat, sz: nat, szMin: nat): (r: Result)
    requires |sent| >= 16 * n + HEADER && |buf| == 16 * n + sz && sz >= HEADER
    ensures r.Fail? ==> r.rc != 0
    ensures r.Done? ==> |r.rsp| == sz
    decreases |sent|
  {
    if n == 0 then
      var rc := SanityCheck(sent, buf, len, sz == szMin, szMin);
      if rc != 0 then Fail(rc) else Done(buf)
    else
      var rc := SanityCheck(sent, buf, len, false, LEVEL);
      if rc != 0 then Fail(rc)
      else if Get16(buf, HEADER) != len - LEVEL then Fail(-1)
      else Unwind(n - 1, sent[LEVEL..], buf[LEVEL..], len - LEVEL, sz, szMin)
  }

  /** One tunnel level of a response is in order: it answers its request, and the inner message is as long
      as the level says. */
  predicate LevelOk(sent: Bytes, buf: Bytes, len: nat)
    requires |sent| >= 16 && |buf| >= 16
  {
    SanityCheck(sent, buf, len, false, 16) == 0 && buf[12] as int + 256 * (buf[13] as int) == len - 16
  }

  /** The outermost `n` levels are in order, and each holds the next. */
  predicate LevelsOk(n: nat, sent: Bytes, buf: Bytes, len: nat)
    requires |sent| >= 16 * n && |buf| >= 16 * n
  {
    n == 0 || (LevelOk(sent, buf, len) && len >= 16 && LevelsOk(n - 1, sent[16..], buf[16..], len - 16))
  }

  /** The verdict on the message behind `n` levels. */
  function InnerVerdict(n: nat, sent: Bytes, buf: Bytes, len: nat, sz: nat, szMin: nat): int
    requires |sent| >= 16 * n + 12 && |buf| >= 16 * n + 12
  {
    if len < 16 * n then -1 else SanityCheck(sent[16 * n..], buf[16 * n..], len - 16 * n, sz == szMin, szMin)
  }

  /** A level in order is peeled off. */
  lemma UnwindLevel(n: nat, sent: Bytes, buf: Bytes, len: nat, sz: nat, szMin: nat)
    requires n > 0 && |sent| >= 16 * n + HEADER && |buf| == 16 * n + sz && sz >= HEADER && len >= LEVEL
    requires SanityCheck(sent, buf, len, false, LEVEL) == 0 && Get16(buf, HEADER) == len - LEVEL
    ensures Unwind(n, sent, buf, len, sz, szMin)
         == Unwind(n - 1, sent[LEVEL..], buf[LEVEL..], len - LEVEL, sz, szMin)
  {
  }

  /** One that is not ends the unwinding. */
  lemma UnwindEnds(n: nat, sent: Bytes, buf: Bytes, len: nat, sz: nat, szMin: nat)
    requires n > 0 && |sent| >= 16 * n + HEADER && |buf| == 16 * n + sz && sz >= HEADER && !LevelOk(sent, buf, len)
    ensures var rc := SanityCheck(sent, buf, len, false, 16);
            Unwind(n, sent, buf, len, sz, szMin) == Fail(if rc != 0 then rc else -1)
  {
  }

  /** The result `r` is what the levels and the verdict on the innermost message make it. */
  predicate Decided(r: Result, levels: bool, rc: int, inner: Bytes) {
    && (r.Done? <==> levels && rc == 0)
    && (r.Done? ==> r.rsp == inner)
    && (levels && rc != 0 ==> r == Fail(rc))
  }

  lemma InnerShift(n: nat, sent: Bytes, buf: Bytes, len: nat, sz: nat, szMin: nat)
    requires n > 0 && |sent| >= 16 * n + 12 && |buf| >= 16 * n + 12 && len >= 16
    ensures InnerVerdict(n, sent, buf, len, sz, szMin) == InnerVerdict(n - 1, sent[16..], buf[16..], len - 16, sz, szMin)
    ensures buf[16..][16 * (n - 1)..] == buf[16 * n..]
  {
    Shorter(sent, n);
    Shorter(buf, n);
  }

  /** Unwinding succeeds exactly when every level is in order and the innermost message passes; what it
      hands back is the innermost message. Behind good levels the innermost verdict decides. */
  lemma {:induction false} UnwindDoneIff(n: nat, sent: Bytes, buf: Bytes, len: nat, sz: nat, szMin: nat)
    requires |sent| >= 16 * n + HEADER && |buf| == 16 * n + sz && sz >= HEADER
    ensures Decided(Unwind(n, sent, buf, len, sz, szMin), LevelsOk(n, sent, buf, len),
                    InnerVerdict(n, sent, buf, len, sz, szMin), buf[16 * n..])
    decreases n
  {
    if n == 0 {
      assert sent[0..] == sent && buf[0..] == buf;
    } else if LevelOk(sent, buf, len) {
      UnwindLevel(n, sent, buf, len, sz, szMin);
      UnwindDoneIff(n - 1, sent[16..], buf[16..], len - 16, sz, szMin);
      InnerShift(n, sent, buf, len, sz, szMin);
    } else {
      UnwindEnds(n, sent, buf, len, sz, szMin);
    }
  }

  lemma Shorter(b: Bytes, n: nat)
    requires n > 0 && |b| >= 16 * n
    ensures b[16..][16 * (n - 1)..] == b[16 * n..]
  {
  }

  /** Otherwise the first level out of order decides: its own code if it has one, -1 if only the lengths
      disagree. */
  lemma {:induction false} UnwindFailsAt(n: nat, sent: Bytes, buf: Bytes, len: nat, sz: nat, szMin: nat, k: nat)
    requires |sent| >= 16 * n + HEADER && |buf| == 16 * n + sz && sz >= HEADER && k < n
    requires LevelsOk(k, sent, buf, len) && len >= 16 * k && !LevelOk(sent[16 * k..], buf[16 * k..], len - 16 * k)
    ensures var rc := SanityCheck(sent[16 * k..], buf[16 * k..], len - 16 * k, false, 16);
            Unwind(n, sent, buf, len, sz, szMin) == Fail(if rc != 0 then rc else -1)
    decreases k
  {
    if k == 0 {
      assert sent[0..] == sent && buf[0..] == buf;
      UnwindEnds(n, sent, buf, len, sz, szMin);
    } else {
      UnwindLevel(n, sent, buf, len, sz, szMin);
      Shorter(sent, k);
      Shorter(buf, k);
      UnwindFailsAt(n - 1, sent[16..], buf[16..], len - 16, sz, szMin, k - 1);
    }
  }

  /** The response buffer and length that a receive into `cap` cleared bytes leaves behind. */
  function Received(r: Recv, cap: nat): (p: (Bytes, nat))
    requires r.Datagram? || r.RecvFailed?
    ensures |p.0| == cap
  {
    if r.Datagram? then (Filled(r.bytes, cap), Min(|r.bytes|, cap)) else (Zeros(cap), SIZE_MAX)
  }

  /** The fate of a request `sent` through `n` tunnel levels, given what the socket layer reports. */
  function Deliver(n: nat, sent: Bytes, got: Recv, sz: nat, szMin: nat): (r: Result)
    requires |sent| >= 16 * n + HEADER && sz >= HEADER
    ensures r.Fail? ==> r.rc != 0
    ensures r.Done? ==> |r.rsp| == sz
    ensures !got.Datagram? ==> r == Fail(-1)
  {
    if got.Datagram? || got.RecvFailed? then
      var (buf, len) := Received(got, 16 * n + sz);
      Unwind(n, sent, buf, len, sz, szMin)
    else Fail(-1)
  }

  /** One whole command along a path of any depth. */
  function Exchange(hops: seq<Hop>, tag: int, req: Bytes, sz: nat, szMin: nat, link: Bytes -> Recv): (r: Result)
    requires IsMessage(req) && sz >= HEADER
    ensures r.Fail? ==> r.rc != 0
    ensures r.Done? ==> |r.rsp| == sz
  {
    var sent := Nest(hops, tag, req);
    Deliver(|hops|, sent, link(sent), sz, szMin)
  }

  // ---------------------------------------------------------------- the endpoint

  /** The command sets of the Fabric Manager API. */
  predicate IsFmapi(commandSet: byte)
    ensures IsFmapi(commandSet) <==> commandSet in {0x51, 0x52, 0x53, 0x54, 0x55, 0x56}
  {
    0x51 <= commandSet <= 0x56
  }

  /** The path that tunnel information stands for, if any. */
  function Path(ti: Option<TunnelInfo>): Option<seq<Hop>> {
    if ti.None? || ti.value.level == 0 then Some([])
    else if ti.value.level == 1 then Some([if ti.value.ld == -1 then ti.value.port else ti.value.ld])
    else if ti.value.level == 2 then Some([ti.value.port, ti.value.ld])
    else None
  }

  /** The ways to name a target that the library documents, and where they lead: an LD of an MLD, an MLD
      behind a switch port, an LD behind a switch port, the LD pool of a multi-headed device, or no
      tunnel at all. */
  lemma DocumentedPaths(port: int, ld: int)
    ensures Path(None) == Some([]) && Path(Some(TunnelInfo(port, ld, 0))) == Some([])
    ensures ld >= 0 ==> Path(Some(TunnelInfo(-1, ld, 1))) == Some([ld])
    ensures Path(Some(TunnelInfo(port, -1, 1))) == Some([port])
    ensures Path(Some(TunnelInfo(port, ld, 2))) == Some([port, ld])
    ensures Path(Some(TunnelInfo(-1, -1, 1))) == Some([-1])
  {
  }

  class Endpoint {
    const overMctp: bool   // otherwise the ioctl or the mock, which leave tags alone
    var tag: int           // counter; a message carries its low eight bits
    var hasFmapi: bool

    constructor (overMctp: bool, tag: int, hasFmapi: bool)
      ensures this.overMctp == overMctp && this.tag == tag && this.hasFmapi == hasFmapi
    {
      this.overMctp, this.tag, this.hasFmapi := overMctp, tag, hasFmapi;
    }

    /** Arms the header of a fresh request; only MCTP numbers its requests. */
    method ArmCciRequest(payload: Bytes, commandSet: byte, command: byte) returns (req: Bytes)
      modifies this`tag
      ensures tag == old(tag) + if overMctp then 1 else 0
      ensures req == RequestHeader(if overMctp then old(tag) else 0, command, commandSet, |payload|) + payload
    {
      if overMctp {
        req := RequestHeader(tag, command, commandSet, |payload|) + payload;
        tag := tag + 1;
      } else {
        req := RequestHeader(0, command, commandSet, |payload|) + payload;
      }
    }

    method BuildTunnelReq(portOrLd: Hop, payload: Bytes) returns (req: Bytes)
      modifies this`tag
      ensures tag == old(tag) + 1
      ensures req == TunnelReq(portOrLd, old(tag), payload)
      ensures |req| == 16 + |payload| && req[16..] == payload
      ensures req[0] == 0 && req[1] == old(tag) % 256 && req[3] == 0x00 && req[4] == 0x53
      ensures if portOrLd == -1 then req[13] == 1 else req[13] == 0 && req[12] == portOrLd % 256
      ensures req[14] == |payload| % 256 && req[15] == |payload| / 256 % 256
      ensures |payload| < 0xF_FFFC ==> PayloadLength(req) == 4 + |payload|
    {
      var tReqSz := TUNNEL_HEADER + |payload|;
      req := RequestHeader(tag, TUNNEL_COMMAND, MLD_PORT, tReqSz);
      tag := tag + 1;
      var targetType: byte := if portOrLd == -1 then 1 else 0;
      req := req + ([portOrLd % 256, targetType] + Le16(|payload|));
      req := req + payload;
      TunnelReqBytes(portOrLd, tag - 1, payload);
    }

    method SendDirect(req: Bytes, rsp: array<byte>, szMin: nat, link: Bytes -> Recv) returns (rc: int)
      requires IsMessage(req) && rsp.Length >= HEADER
      modifies rsp
      ensures rc == 0 <==> Exchange([], tag, req, rsp.Length, szMin, link).Done?
      ensures rc == 0 ==> rsp[..] == Exchange([], tag, req, rsp.Length, szMin, link).rsp
      ensures rc != 0 ==> rc == Exchange([], tag, req, rsp.Length, szMin, link).rc
      ensures !link(req).Datagram? ==> rc == -1 && rsp[..] == Zeros(rsp.Length)
    {
      Fill(rsp, Zeros(rsp.Length));
      var got := link(req);
      match got {
        case SendFailed => return -1;
        case TimedOut => return -1;
        case PollFailed => return -1;
        case RecvFailed =>
          rc := SanityCheck(req, rsp[..], SIZE_MAX, rsp.Length == szMin, szMin);
        case Datagram(d) =>
          Fill(rsp, Filled(d, rsp.Length));
          rc := SanityCheck(req, rsp[..], Min(|d|, rsp.Length), rsp.Length == szMin, szMin);
      }
    }

    /** Unwinds the last tunnel level of `tRsp` and copies the innermost response out; both tunnel
        depths end this way. The running bounds still include this level. */
    method UnwindLastLevel(tReq: Bytes, tRsp: Bytes, received: nat, max: nat, min: nat, rsp: array<byte>)
      returns (rc: int)
      requires |tReq| >= LEVEL + HEADER && rsp.Length >= HEADER && |tRsp| == LEVEL + rsp.Length
      requires max == LEVEL + rsp.Length && min >= LEVEL
      modifies rsp
      ensures match Unwind(1, tReq, tRsp, received, rsp.Length, min - LEVEL)
              case Fail(c) => rc == c && rsp[..] == old(rsp[..])
              case Done(b) => rc == 0 && rsp[..] == b
    {
      rc := SanityCheck(tReq, tRsp, received, false, LEVEL);
      if rc != 0 { return; }
      var len, lenMax, lenMin := received - LEVEL, max - LEVEL, min - LEVEL;
      if Get16(tRsp, HEADER) != len { return -1; }
      assert Unwind(1, tReq, tRsp, received, rsp.Length, min - LEVEL)
          == Unwind(0, tReq[LEVEL..], tRsp[LEVEL..], len, rsp.Length, lenMin);
      rc := SanityCheck(tReq[LEVEL..], tRsp[LEVEL..], len, lenMin == lenMax, lenMin);
      if rc != 0 { return; }
      Fill(rsp, tRsp[LEVEL..]);
    }

    method SendTunnel1(ti: TunnelInfo, req: Bytes, rsp: array<byte>, szMin: nat, link: Bytes -> Recv)
      returns (rc: int)
      requires IsMessage(req) && rsp.Length >= HEADER
      modifies this`tag, rsp
      ensures tag == old(tag) + 1
      ensures var hop := if ti.ld == -1 then ti.port else ti.ld;
              match Exchange([hop], old(tag), req, rsp.Length, szMin, link)
              case Fail(c) => rc == c && rsp[..] == old(rsp[..])
              case Done(b) => rc == 0 && rsp[..] == b
    {
      var hop := if ti.ld == -1 then ti.port else ti.ld;
      var tReq := BuildTunnelReq(hop, req);
      NestOne(hop, tag - 1, req);
      assert tReq == Nest([hop], tag - 1, req);
      rc := ReceiveTunnel1(tReq, link(tReq), rsp, szMin);
    }

    /** The receiving half of `SendTunnel1`. */
    method ReceiveTunnel1(tReq: Bytes, got: Recv, rsp: array<byte>, szMin: nat) returns (rc: int)
      requires |tReq| >= LEVEL + HEADER && rsp.Length >= HEADER
      modifies rsp
      ensures match Deliver(1, tReq, got, rsp.Length, szMin)
              case Fail(c) => rc == c && rsp[..] == old(rsp[..])
              case Done(b) => rc == 0 && rsp[..] == b
    {
      if !got.Datagram? && !got.RecvFailed? { return -1; }
      var (tRsp, len) := Received(got, LEVEL + rsp.Length);
      rc := UnwindLastLevel(tReq, tRsp, len, LEVEL + rsp.Length, LEVEL + szMin, rsp);
    }

    method SendTunnel2(ti: TunnelInfo, req: Bytes, rsp: array<byte>, szMin: nat, link: Bytes -> Recv)
      returns (rc: int)
      requires IsMessage(req) && rsp.Length >= HEADER
      modifies this`tag, rsp
      ensures tag == old(tag) + 2
      ensures match Exchange([ti.port, ti.ld], old(tag), req, rsp.Length, szMin, link)
              case Fail(c) => rc == c && rsp[..] == old(rsp[..])
              case Done(b) => rc == 0 && rsp[..] == b
    {
      var innerReq := BuildTunnelReq(ti.ld, req);
      var outerReq := BuildTunnelReq(ti.port, innerReq);
      NestTwo(ti.port, ti.ld, tag - 2, req);
      assert outerReq == Nest([ti.port, ti.ld], tag - 2, req);
      rc := ReceiveTunnel2(outerReq, link(outerReq), rsp, szMin);
    }

    /** The receiving half of `SendTunnel2`. */
    method ReceiveTunnel2(outerReq: Bytes, got: Recv, rsp: array<byte>, szMin: nat) returns (rc: int)
      requires |outerReq| >= 32 + HEADER && rsp.Length >= HEADER
      modifies rsp
      ensures match Deliver(2, outerReq, got, rsp.Length, szMin)
              case Fail(c) => rc == c && rsp[..] == old(rsp[..])
              case Done(b) => rc == 0 && rsp[..] == b
    {
      if !got.Datagram? && !got.RecvFailed? { return -1; }
      var (outerRsp, len) := Received(got, 32 + rsp.Length);
      rc := UnwindTwoLevels(outerReq, outerRsp, len, rsp, szMin);
    }

    method UnwindTwoLevels(outerReq: Bytes, outerRsp: Bytes, received: nat, rsp: array<byte>, szMin: nat)
      returns (rc: int)
      requires |outerReq| >= 32 + HEADER && rsp.Length >= HEADER && |outerRsp| == 32 + rsp.Length
      modifies rsp
      ensures match Unwind(2, outerReq, outerRsp, received, rsp.Length, szMin)
              case Fail(c) => rc == c && rsp[..] == old(rsp[..])
              case Done(b) => rc == 0 && rsp[..] == b
    {
      var len, lenMin, lenMax := received, 32 + szMin, 32 + rsp.Length;
      rc := SanityCheck(outerReq, outerRsp, len, false, LEVEL);
      if rc != 0 { return; }
      len, lenMax, lenMin := len - LEVEL, lenMax - LEVEL, lenMin - LEVEL;
      if Get16(outerRsp, HEADER) != len { return -1; }
      rc := UnwindLastLevel(outerReq[LEVEL..], outerRsp[LEVEL..], len, lenMax, lenMin, rsp);
    }

    /** Sends a command the way its tunnel information asks for. An FM-API command to an endpoint
        without the FM-API, or a level the library does not have, is refused before anything is sent. */
    method SendCmdCci(ti: Option<TunnelInfo>, req: Bytes, rsp: array<byte>, szMin: nat, link: Bytes -> Recv)
      returns (rc: int)
      requires overMctp && IsMessage(req) && rsp.Length >= HEADER
      modifies this`tag, rsp
      ensures (0x51 <= req[4] <= 0x56 && !hasFmapi) || Path(ti).None? ==>
                rc == -1 && tag == old(tag) && rsp[..] == old(rsp[..])
      ensures (0x51 <= req[4] <= 0x56 ==> hasFmapi) && Path(ti).Some? ==>
                && tag == old(tag) + |Path(ti).value|
                && match Exchange(Path(ti).value, old(tag), req, rsp.Length, szMin, link)
                   case Fail(c) => rc == c
                   case Done(b) => rc == 0 && rsp[..] == b
    {
      if IsFmapi(req[4]) && !hasFmapi { return -1; }
      if ti.Some? && ti.value.level > 2 { return -1; }
      if ti.None? || ti.value.level == 0 {
        rc := SendDirect(req, rsp, szMin, link);
      } else if ti.value.level == 1 {
        rc := SendTunnel1(ti.value, req, rsp, szMin, link);
      } else if ti.value.level == 2 {
        rc := SendTunnel2(ti.value, req, rsp, szMin, link);
      } else {
        return -1;
      }
    }
  }

  lemma NestOne(hop: Hop, tag: int, req: Bytes)
    ensures Nest([hop], tag, req) == TunnelReq(hop, tag, req)
  {
    assert Nest([hop][1..], tag, req) == req;
  }

  lemma NestTwo(outer: Hop, inner: Hop, tag: int, req: Bytes)
    ensures Nest([outer, inner], tag, req) == TunnelReq(outer, tag + 1, TunnelReq(inner, tag, req))
  {
    assert [outer, inner][1..] == [inner];
    NestOne(inner, tag, req);
  }
}
