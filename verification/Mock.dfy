/** The mock transport: canned responses wait in one linked list, and every send consumes the first
    one queued for its opcode. */
module Mock {
  import opened Wire
  import opened Cci
  import opened List

  const UNSUPPORTED: nat := 3

  datatype Opcode = Opcode(commandSet: byte, command: byte)

  datatype Response = Response(op: Opcode, returnCode: nat, payload: Bytes)

  // ---------------------------------------------------------------- what the list means

  /** Removing the first response for `op`. */
  function Take(rs: seq<Response>, op: Opcode): (p: (Option<Response>, seq<Response>))
    ensures p.0.Some? ==> |p.1| == |rs| - 1
    ensures p.0.None? ==> p.1 == rs
  {
    if rs == [] then (None, rs)
    else if rs[0].op == op then (Some(rs[0]), rs[1..])
    else var (r, rest) := Take(rs[1..], op); if r.None? then (None, rs) else (r, [rs[0]] + rest)
  }

  /** The queue of one opcode inside the list. */
  function QueueOf(rs: seq<Response>, op: Opcode): seq<Response> {
    if rs == [] then [] else (if rs[0].op == op then [rs[0]] else []) + QueueOf(rs[1..], op)
  }

  lemma {:induction false} QueueOfAppend(rs: seq<Response>, r: Response, op: Opcode)
    ensures QueueOf(rs + [r], op) == QueueOf(rs, op) + if r.op == op then [r] else []
  {
    if rs == [] {
      assert rs + [r] == [r];
    } else {
      QueueOfAppend(rs[1..], r, op);
      var longer := rs + [r];
      assert longer[0] == rs[0] && longer[1..] == rs[1..] + [r];
    }
  }

  /** Taking dequeues from the opcode's own queue and leaves every other queue alone. */
  lemma {:induction false} TakeDequeues(rs: seq<Response>, op: Opcode, other: Opcode)
    ensures var (r, rest) := Take(rs, op); var q := QueueOf(rs, op);
            && (r.None? <==> q == [])
            && (r.Some? ==> r.value == q[0] && QueueOf(rest, op) == q[1..])
            && (other != op ==> QueueOf(rest, other) == QueueOf(rs, other))
  {
    if rs != [] {
      TakeDequeues(rs[1..], op, other);
      var (r, rest) := Take(rs[1..], op);
      assert ([rs[0]] + rest)[1..] == rest;
    }
  }

  // ---------------------------------------------------------------- runs

  datatype Action = Set(r: Response) | Clear | Send(op: Opcode)

  /** The list after one more action. */
  function Acted(rs: seq<Response>, a: Action): seq<Response> {
    match a
    case Set(r) => rs + [r]
    case Clear => []
    case Send(op) => Take(rs, op).1
  }

  /** The list after a run. */
  function ListAfter(run: seq<Action>): seq<Response> {
    if run == [] then [] else Acted(ListAfter(run[..|run| - 1]), run[|run| - 1])
  }

  /** The responses queued for `op` since the last clear. */
  function Queued(run: seq<Action>, op: Opcode): seq<Response> {
    if run == [] then []
    else
      var q := Queued(run[..|run| - 1], op);
      match run[|run| - 1]
      case Set(r) => if r.op == op then q + [r] else q
      case Clear => []
      case Send(_) => q
  }

  /** The responses handed to sends of `op` since the last clear. */
  function Answers(run: seq<Action>, op: Opcode): seq<Response> {
    if run == [] then []
    else
      var before := run[..|run| - 1];
      var a := Answers(before, op);
      match run[|run| - 1]
      case Set(_) => a
      case Clear => []
      case Send(o) =>
        var r := Take(ListAfter(before), o).0;
        if o == op && r.Some? then a + [r.value] else a
  }

  /** The single list refines one FIFO per opcode, in every interleaving: what was handed out followed
      by what still waits is what was queued, in order. */
  lemma {:induction false} FifoPerOpcode(run: seq<Action>, op: Opcode)
    ensures Answers(run, op) + QueueOf(ListAfter(run), op) == Queued(run, op)
  {
    if run != [] {
      var before, last := run[..|run| - 1], run[|run| - 1];
      FifoPerOpcode(before, op);
      var rs := ListAfter(before);
      match last {
        case Set(r) =>
          QueueOfAppend(rs, r, op);
        case Clear =>
        case Send(o) =>
          TakeDequeues(rs, o, op);
      }
    }
  }

  /** The next send of `op` is answered exactly when more were queued than handed out, and it gets
      the next one in line. */
  lemma NextSend(run: seq<Action>, op: Opcode)
    ensures var r := Take(ListAfter(run), op).0; var i := |Answers(run, op)|;
            && i <= |Queued(run, op)|
            && (r.Some? <==> i < |Queued(run, op)|)
            && (r.Some? ==> r.value == Queued(run, op)[i])
  {
    FifoPerOpcode(run, op);
    TakeDequeues(ListAfter(run), op, op);
  }

  datatype Ledger = Ledger(queued: nat, returned: nat, cleared: nat)

  function Totals(run: seq<Action>): Ledger {
    if run == [] then Ledger(0, 0, 0)
    else
      var before := run[..|run| - 1];
      var t, rs := Totals(before), ListAfter(before);
      match run[|run| - 1]
      case Set(_) => t.(queued := t.queued + 1)
      case Clear => t.(cleared := t.cleared + |rs|)
      case Send(op) => if Take(rs, op).0.Some? then t.(returned := t.returned + 1) else t
  }

  lemma {:induction false} Conservation(run: seq<Action>)
    ensures var t := Totals(run); t.queued == t.returned + |ListAfter(run)| + t.cleared
  {
    if run != [] { Conservation(run[..|run| - 1]); }
  }

  // ---------------------------------------------------------------- the response message

  /** The message a send leaves in a buffer of `sz` bytes. */
  function Reply(req: Bytes, r: Response, sz: nat): (m: Bytes)
    requires IsMessage(req) && sz >= HEADER
    ensures |m| == sz
  {
    var n := Min(|r.payload|, sz - HEADER);
    [CATEGORY_RSP, Tag(req), 0, req[3], req[4], n % 256, n / 256 % 256, n / 65536 % 16] +
    Le16(r.returnCode) + [0, 0] + r.payload[..n] + Zeros(sz - HEADER - n)
  }

  function NoReply(req: Bytes, sz: nat): (m: Bytes)
    requires IsMessage(req) && sz >= HEADER
    ensures |m| == sz
  {
    [0, 0, 0, req[3], req[4], 0, 0, 0] + Le16(UNSUPPORTED) + Zeros(sz - HEADER + 2)
  }

  function RequestOpcode(req: Bytes): Opcode
    requires IsMessage(req)
  {
    Opcode(req[4], req[3])
  }

  function PayloadOf(req: Bytes): Bytes
    requires IsMessage(req) && HEADER + PayloadLength(req) <= |req|
  {
    req[HEADER..HEADER + PayloadLength(req)]
  }

  /** The mock's reply is one the MCTP checks would accept: it carries the queued code, and on
      success a payload of the length it states. */
  lemma ReplyPassesChecks(req: Bytes, r: Response, sz: nat, szMin: nat)
    requires IsMessage(req) && sz >= HEADER && r.returnCode < 0x1_0000
    requires var n := HEADER + Min(|r.payload|, sz - HEADER);
             n < 0x10_0000 && if sz == szMin then n == szMin else n >= szMin
    ensures var m := Reply(req, r, sz); var n := Min(|r.payload|, sz - HEADER);
            && SanityCheck(req, m, HEADER + n, sz == szMin, szMin) == r.returnCode
            && PayloadLength(m) == n && m[HEADER..HEADER + n] == r.payload[..n]
  {
    var m, n := Reply(req, r, sz), Min(|r.payload|, sz - HEADER);
    Get16OfLe16(r.returnCode, m, 8);
    assert m[HEADER..HEADER + n] == r.payload[..n];
    Split20(n);
    assert PayloadLength(m) == n;
  }

  /** Every byte of a reply: the queued code and as much of the payload as fits, under the request's tag
      and opcode, and zeros. */
  lemma ReplyBytes(req: Bytes, r: Response, sz: nat, i: nat)
    requires IsMessage(req) && sz >= HEADER && r.returnCode < 0x1_0000 && i < sz
    ensures var m := Reply(req, r, sz);
            && m[0] == 1 && m[1] == req[1] && m[3] == req[3] && m[4] == req[4]
            && m[5] as int + 256 * (m[6] as int) + 65536 * (m[7] as int) == Min(|r.payload|, sz - 12) % 0x10_0000
            && m[8] as int + 256 * (m[9] as int) == r.returnCode
            && (i == 2 || i == 10 || i == 11 ==> m[i] == 0)
            && (i >= 12 ==> m[i] == if i - 12 < |r.payload| then r.payload[i - 12] else 0)
  {
    var m, n := Reply(req, r, sz), Min(|r.payload|, sz - HEADER);
    Get16OfLe16(r.returnCode, m, 8);
    TwentyBits(n);
    if i >= 12 {
      if i - 12 < n {
        assert m[12..12 + n] == r.payload[..n];
        assert m[i] == m[12..12 + n][i - 12];
      } else {
        assert m[12 + n..] == Zeros(sz - HEADER - n);
        assert m[i] == m[12 + n..][i - 12 - n];
      }
    }
  }

  /** A command without a response gets code 3 under its opcode and zeros otherwise, which the MCTP checks
      would refuse. */
  lemma NoReplyBytes(req: Bytes, sz: nat, i: nat, len: nat, szMin: nat)
    requires IsMessage(req) && sz >= HEADER && i < sz
    ensures NoReply(req, sz)[i] == if i == 3 || i == 4 then req[i] else if i == 8 then 3 else 0
    ensures SanityCheck(req, NoReply(req, sz), len, sz == szMin, szMin) == -1
  {
  }

  lemma ReplyLength(req: Bytes, r: Response, sz: nat)
    requires IsMessage(req) && HEADER <= sz < 0x10_0000
    ensures PayloadLength(Reply(req, r, sz)) == Min(|r.payload|, sz - HEADER)
  {
    Split20(Min(|r.payload|, sz - HEADER));
  }

  // ---------------------------------------------------------------- the transport

  type Entry = Node<Option<Response>>

  /** The nodes behind the head carry the pending responses, in order. */
  ghost predicate Carry(ring: seq<Entry>, pending: seq<Response>)
    reads (set n | n in ring)`data
  {
    |pending| == |ring| - 1
    && forall i {:trigger ring[i].data} :: 0 < i < |ring| ==> ring[i].data == Some(pending[i - 1])
  }

  lemma CarryWithout(ring: seq<Entry>, pending: seq<Response>, k: nat)
    requires Carry(ring, pending) && 0 < k < |ring|
    ensures Carry(Without(ring, k), Without(pending, k - 1))
  {
  }

  type uint32 = x: int | 0 <= x < 0x1_0000_0000

  function Inc(x: uint32): uint32 { if x == 0xFFFF_FFFF then 0 else x + 1 }

  class Transport {
    const head: Entry
    var commandsSent: uint32
    var responsesReturned: uint32
    var lastOp: Opcode
    var lastPayload: Bytes
    ghost var ring: seq<Entry>
    ghost var pending: seq<Response>
    ghost var Repr: set<Entry>

    ghost predicate Valid()
      reads `ring, `pending, `Repr, Repr
    {
      && (forall i :: 0 <= i < |ring| ==> ring[i] in Repr)
      && Ring(ring, head)
      && Carry(ring, pending)
    }

    constructor ()
      ensures Valid() && fresh(Repr) && pending == [] && commandsSent == 0 && responsesReturned == 0
    {
      var h := new Node<Option<Response>>(None);
      head := h;
      ring, pending, Repr := [h], [], {h};
      commandsSent, responsesReturned := 0, 0;
      lastOp, lastPayload := Opcode(0, 0), [];
    }

    method SetResponse(r: Response)
      requires Valid()
      modifies this`ring, this`pending, this`Repr, Repr
      ensures Valid() && fresh(Repr - old(Repr))
      ensures pending == old(pending) + [r]
    {
      var n := new Node(Some(r));
      assert After(ring, |ring| - 1) == head;
      ListAddTail(head, n, ring);
      ring, pending, Repr := ring + [n], pending + [r], Repr + {n};
    }

    method Unlink(n: Entry, ghost k: nat)
      requires Valid() && 0 < k < |ring| && ring[k] == n
      modifies this`ring, this`pending, Repr
      ensures Valid()
      ensures pending == Without(old(pending), k - 1) && ring == Without(old(ring), k)
    {
      assert n.next == After(ring, k) && After(ring, k - 1) == n;
      ListDel(n, ring, k);
      CarryWithout(ring, pending, k);
      ring, pending := Without(ring, k), Without(pending, k - 1);
    }

    method ClearResponses()
      requires Valid()
      modifies this`ring, this`pending, Repr
      ensures Valid() && pending == []
    {
      var n := head.next;
      while n != head
        invariant Valid() && n == After(ring, 0)
        decreases |ring|
      {
        var nxt := n.next;
        assert n == ring[1] && nxt == After(ring, 1);
        Unlink(n, 1);
        n := nxt;
      }
    }

    /** Finds and unlinks the first response for `op`. */
    method FindResponse(op: Opcode) returns (r: Option<Response>)
      requires Valid()
      modifies this`ring, this`pending, Repr
      ensures Valid()
      ensures (r, pending) == Take(old(pending), op)
    {
      var n := head.next;
      ghost var k := 1;
      while n != head
        invariant 1 <= k <= |ring| && n == After(ring, k - 1)
        invariant Valid() && ring == old(ring) && pending == old(pending)
        invariant forall i :: 0 <= i < k - 1 ==> pending[i].op != op
        decreases |ring| - k
      {
        assert n == ring[k] && n.data == Some(pending[k - 1]);
        if n.data.value.op == op {
          TakeAt(pending, op, k - 1);
          r := n.data;
          Unlink(n, k);
          return;
        }
        n := n.next;
        k := k + 1;
      }
      TakeNothing(pending, op);
      return None;
    }

    /** send_mock_cmd: answers from the list, or reports the command as unsupported. A caller that wants
        no response message passes no buffer, or an empty one. */
    method SendMockCmd(req: Bytes, rsp: array?<byte>) returns (rc: nat)
      requires Valid() && IsMessage(req) && HEADER + PayloadLength(req) <= |req|
      requires Wanted(rsp) ==> rsp.Length >= HEADER
      modifies this, Repr, if rsp == null then {} else {rsp}
      ensures Valid() && Repr == old(Repr)
      ensures commandsSent == Inc(old(commandsSent))
      ensures lastOp == RequestOpcode(req) && lastPayload == PayloadOf(req)
      ensures var (r, rest) := Take(old(pending), RequestOpcode(req));
              && pending == rest
              && match r
                 case None =>
                   && rc == UNSUPPORTED && (Wanted(rsp) ==> rsp[..] == NoReply(req, rsp.Length))
                   && responsesReturned == old(responsesReturned)
                 case Some(a) =>
                   && rc == a.returnCode && (Wanted(rsp) ==> rsp[..] == Reply(req, a, rsp.Length))
                   && responsesReturned == Inc(old(responsesReturned))
    {
      RecordCommand(req);
      assert Valid();
      var r := FindResponse(lastOp);
      responsesReturned := if r.Some? then Inc(responsesReturned) else responsesReturned;
      assert Valid();
      rc := BuildReply(req, r, rsp);
    }

    /** Keeps the last command for inspection; its payload is taken at the length its header states. */
    method RecordCommand(req: Bytes)
      requires IsMessage(req) && HEADER + PayloadLength(req) <= |req|
      modifies this`commandsSent, this`lastOp, this`lastPayload
      ensures commandsSent == Inc(old(commandsSent))
      ensures lastOp == RequestOpcode(req) && lastPayload == PayloadOf(req)
    {
      commandsSent := Inc(commandsSent);
      lastOp := Opcode(req[4], req[3]);
      lastPayload := [];
      var plSize := PayloadLength(req);
      if plSize > 0 { lastPayload := req[HEADER..HEADER + plSize]; }
    }

    static method BuildReply(req: Bytes, r: Option<Response>, rsp: array?<byte>) returns (rc: nat)
      requires IsMessage(req) && (Wanted(rsp) ==> rsp.Length >= HEADER)
      modifies if rsp == null then {} else {rsp}
      ensures match r
              case None => rc == UNSUPPORTED && (Wanted(rsp) ==> rsp[..] == NoReply(req, rsp.Length))
              case Some(a) => rc == a.returnCode && (Wanted(rsp) ==> rsp[..] == Reply(req, a, rsp.Length))
    {
      if r.None? {
        if rsp != null && rsp.Length > 0 { Fill(rsp, NoReply(req, rsp.Length)); }
        return UNSUPPORTED;
      }
      if rsp != null && rsp.Length > 0 { Fill(rsp, Reply(req, r.value, rsp.Length)); }
      return r.value.returnCode;
    }
  }

  predicate Wanted(rsp: array?<byte>) { rsp != null && rsp.Length > 0 }

  lemma {:induction false} TakeAt(rs: seq<Response>, op: Opcode, k: nat)
    requires k < |rs| && rs[k].op == op && forall i :: 0 <= i < k ==> rs[i].op != op
    ensures Take(rs, op) == (Some(rs[k]), Without(rs, k))
  {
    if k > 0 {
      TakeAt(rs[1..], op, k - 1);
      assert [rs[0]] + Without(rs[1..], k - 1) == Without(rs, k);
    } else {
      assert Without(rs, 0) == rs[1..];
    }
  }

  lemma {:induction false} TakeNothing(rs: seq<Response>, op: Opcode)
    requires forall i :: 0 <= i < |rs| ==> rs[i].op != op
    ensures Take(rs, op) == (None, rs)
  {
    if rs != [] { TakeNothing(rs[1..], op); }
  }

  // ---------------------------------------------------------------- runs of the transport

  function Sends(run: seq<Action>): nat {
    if run == [] then 0 else Sends(run[..|run| - 1]) + if run[|run| - 1].Send? then 1 else 0
  }

  /** The transport has been through a run: its list and its counters, which are 32 bits wide. */
  ghost predicate Reflects(t: Transport, run: seq<Action>)
    reads t
  {
    && t.pending == ListAfter(run)
    && t.commandsSent == Sends(run) % 0x1_0000_0000
    && t.responsesReturned == Totals(run).returned % 0x1_0000_0000
  }

  lemma IncWraps(n: nat)
    ensures Inc(n % 0x1_0000_0000) == (n + 1) % 0x1_0000_0000
  {
  }

  method Act(t: Transport, a: Action, rsp: array<byte>, ghost run: seq<Action>)
    requires t.Valid() && rsp.Length >= HEADER && Reflects(t, run)
    modifies t, t.Repr, rsp
    ensures t.Valid() && fresh(t.Repr - old(t.Repr)) && Reflects(t, run + [a])
  {
    assert (run + [a])[..|run|] == run;
    IncWraps(Sends(run));
    IncWraps(Totals(run).returned);
    match a {
      case Set(r) => t.SetResponse(r);
      case Clear => t.ClearResponses();
      case Send(op) =>
        var _ := t.SendMockCmd(RequestHeader(0, op.command, op.commandSet, 0), rsp);
    }
  }

  /** Any run of calls on a transport leaves it as the run on values says, so that what is proved of runs
      holds of the linked list and the counters. */
  method Replay(run: seq<Action>, sz: nat) returns (t: Transport)
    requires sz >= HEADER
    ensures t.Valid() && Reflects(t, run)
  {
    t := new Transport();
    var rsp := new byte[sz];
    for n := 0 to |run|
      invariant t.Valid() && fresh(t) && fresh(t.Repr) && Reflects(t, run[..n])
    {
      Act(t, run[n], rsp, run[..n]);
      assert run[..n + 1] == run[..n] + [run[n]];
    }
    assert run[..|run|] == run;
  }
}
