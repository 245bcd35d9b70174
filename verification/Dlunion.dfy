/** The session-based firmware download: BEGIN, then DATA, QUERY and FINISH as the device directs, and
    ABORT when the run ends badly. The device is arbitrary: every answer is an input. */
module Dlunion {
  import opened Wire

  type uint32 = x: int | 0 <= x < 0x1_0000_0000
  type uint64 = x: int | 0 <= x < 0x1_0000_0000_0000_0000

  const CHUNK: nat := 2016
  const MIN_IMAGE: nat := 116
  const BEGIN_RETRY_MS: nat := 35000
  const OP_TIMEOUT_MS: nat := 300000

  const VERSION: uint32 := 1
  const RESULT_OK: uint32 := 0
  const RESULT_BUSY: uint32 := 2

  datatype Action = Begin | Data | Query | Finish | Abort | BeginSocRt

  const NEED_DATA: uint32 := 1
  const PREPARING: uint32 := 2
  const WRITING: uint32 := 3
  const READY_TO_FINISH: uint32 := 4
  const COMPLETE: uint32 := 5
  const FAILED: uint32 := 6
  const ABORTING: uint32 := 7
  const ABORTED: uint32 := 8

  /** The response buffer. A send clears it first, so its state is IDLE until a device fills it. */
  datatype Reply = Reply(version: uint32, session: uint32, state: uint32, result: uint32,
                         acceptedSequence: uint32, image: uint32, nextOffset: uint32, nextLength: uint32,
                         received: uint32, total: uint32, retryAfterMs: uint32)

  const CLEARED: Reply := Reply(0, 0, 0, 0, 0, 0, 0, 0, 0, 0, 0)

  datatype Message = Message(action: Action, session: uint32, offset: uint32, sequence: uint32, payload: Bytes)

  /** The mailbox traffic of one send. */
  datatype Io = Unlock(ok: bool) | Mailbox(rc: int) | Lock(ok: bool)

  /** What precedes a repeated BEGIN or a QUERY: a clock reading, the start of the wait that the
      reading was compared with, and a sleep in milliseconds. */
  datatype Pause = NoPause | Pause(reading: uint64, since: uint64, slept: nat)

  /** One send: the message, its mailbox traffic, the return code and the response buffer after it. */
  datatype Call = Call(m: Message, pause: Pause, io: seq<Io>, rc: int, rsp: Reply)

  /** What the environment decides during one send. */
  datatype Answer = Answer(unlockOk: bool, mailboxRc: int, reply: Reply, lockOk: bool)

  /** What the environment decides during one turn of either loop. */
  datatype Turn = Turn(clock: Option<uint64>, readOk: bool, answer: Answer)

  // ---------------------------------------------------------------- one send

  predicate IsBegin(a: Action) { a == Begin || a == BeginSocRt }

  function Int32(x: uint32): int { if x < 0x8000_0000 then x else x - 0x1_0000_0000 }

  /** A send either leaves the mailbox locked, or unlocks it, sends once and locks it again. */
  predicate MailboxPaired(io: seq<Io>) {
    io == [Unlock(false)] || (|io| == 3 && io[0] == Unlock(true) && io[1].Mailbox? && io[2].Lock?)
  }

  /** The reply speaks the protocol and, but for BEGIN, belongs to the session. */
  predicate Addressed(m: Message, r: Reply) {
    r.version == VERSION && (IsBegin(m.action) || r.session == m.session)
  }

  /** The call got this answer: the response is the device's or cleared, and the return code is the
      device's result if the reply counts, -1 otherwise. */
  predicate AnsweredBy(c: Call, a: Answer) {
    && c.io == (if a.unlockOk then [Unlock(true), Mailbox(a.mailboxRc), Lock(a.lockOk)] else [Unlock(false)])
    && c.rsp == (if a.unlockOk && a.mailboxRc == 0 then a.reply else CLEARED)
    && c.rc == (if a.unlockOk && a.mailboxRc == 0 && a.lockOk && Addressed(c.m, a.reply) then Int32(a.reply.result) else -1)
  }

  /** One send. A payload over 2016 bytes is refused before the mailbox is touched. */
  method FwdownloadSend(m: Message, pause: Pause, a: Answer) returns (c: Call)
    ensures c.m == m && c.pause == pause
    ensures if |m.payload| > CHUNK then c.io == [] && c.rc == -1 && c.rsp == CLEARED
            else MailboxPaired(c.io) && AnsweredBy(c, a)
  {
    var rsp := CLEARED;
    if |m.payload| > CHUNK { return Call(m, pause, [], -1, rsp); }
    if !a.unlockOk { return Call(m, pause, [Unlock(false)], -1, rsp); }
    var io := [Unlock(true), Mailbox(a.mailboxRc)];
    if a.mailboxRc == 0 { rsp := a.reply; }
    io := io + [Lock(a.lockOk)];
    if a.mailboxRc != 0 { return Call(m, pause, io, -1, rsp); }
    if !a.lockOk { return Call(m, pause, io, -1, rsp); }
    if rsp.version != VERSION { return Call(m, pause, io, -1, rsp); }
    if !IsBegin(m.action) && rsp.session != m.session { return Call(m, pause, io, -1, rsp); }
    if rsp.result != RESULT_OK { return Call(m, pause, io, Int32(rsp.result), rsp); }
    return Call(m, pause, io, 0, rsp);
  }

  // ---------------------------------------------------------------- what a trace may contain

  function Size32(file: Bytes): uint32 { |file| % 0x1_0000_0000 }

  function Next32(x: uint32): uint32 { if x == 0xFFFF_FFFF then 0 else x + 1 }

  /** Unsigned 64-bit subtraction. */
  function Elapsed(now: uint64, since: uint64): nat {
    if now >= since then now - since else now - since + 0x1_0000_0000_0000_0000
  }

  predicate Busy(state: uint32) { state == PREPARING || state == WRITING || state == ABORTING }

  predicate Terminal(state: uint32) { state == COMPLETE || state == FAILED || state == ABORTED }

  function RetryMs(r: Reply): (ms: nat)
    ensures 1 <= ms <= 1000
  {
    if r.retryAfterMs == 0 then 10 else if r.retryAfterMs > 1000 then 1000 else r.retryAfterMs
  }

  /** The send succeeded, and a DATA was acknowledged under its own sequence number. */
  predicate Accepted(c: Call) {
    c.rc == 0 && (c.m.action == Data ==> c.rsp.acceptedSequence == c.m.sequence)
  }

  predicate ProgressOk(file: Bytes, r: Reply) { r.total == Size32(file) && r.received <= r.total }

  /** A run: the BEGINs, the last of which may open the session, and the calls inside the session. */
  datatype Trace = Trace(begins: seq<Call>, body: seq<Call>)

  predicate Opened(file: Bytes, begins: seq<Call>) {
    && begins != []
    && var c := begins[|begins| - 1];
       c.rc == 0 && c.rsp.session != 0 && c.rsp.state == NEED_DATA && c.rsp.total == Size32(file)
  }

  /** The call whose response directs call `k` of the session. */
  function Prior(t: Trace, k: nat): Call
    requires t.begins != [] && k <= |t.body|
  {
    if k == 0 then t.begins[|t.begins| - 1] else t.body[k - 1]
  }

  function Session(t: Trace): uint32
    requires t.begins != []
  {
    t.begins[|t.begins| - 1].rsp.session
  }

  datatype Request = Request(image: uint32, offset: uint32, length: uint32)

  function Asked(r: Reply): Request { Request(r.image, r.nextOffset, r.nextLength) }

  /** An unbroken stretch of QUERYs in one busy state, and the clock reading at its first. */
  datatype Stretch = Idle | Waiting(state: uint32, since: uint64)

  /** What the host remembers between turns, besides the last response. */
  datatype Memory = Memory(session: uint32, answered: Option<Request>, stretch: Stretch)

  /** The request answered by the last DATA before call `k`. */
  function LastAnswered(t: Trace, k: nat): Option<Request>
    requires t.begins != [] && k <= |t.body|
  {
    if k == 0 then None
    else if t.body[k - 1].m.action == Data then Some(Asked(Prior(t, k - 1).rsp))
    else LastAnswered(t, k - 1)
  }

  function MemoryAt(t: Trace, k: nat): Memory
    requires t.begins != [] && k <= |t.body|
  {
    Memory(Session(t), LastAnswered(t, k),
           if k == 0 then Idle
           else match t.body[k - 1].pause
                case NoPause => Idle
                case Pause(_, since, _) => Waiting(Prior(t, k - 1).rsp.state, since))
  }

  /** DATA answers a request in the file that the last DATA did not answer, with the file's bytes. */
  predicate DataFollows(file: Bytes, h: Memory, r: Reply, c: Call) {
    && h.answered != Some(Asked(r))
    && 1 <= r.nextLength <= CHUNK && r.nextOffset + r.nextLength <= Size32(file)
    && c.m == Message(Data, h.session, r.nextOffset, Next32(r.acceptedSequence),
                      file[r.nextOffset..r.nextOffset + r.nextLength])
    && c.pause == NoPause
  }

  /** QUERY waits first; a stretch in one busy state is limited from its first clock reading. */
  predicate QueryFollows(h: Memory, r: Reply, c: Call) {
    && c.m == Message(Query, h.session, 0, 0, [])
    && c.pause.Pause? && c.pause.slept == RetryMs(r)
    && if h.stretch.Waiting? && h.stretch.state == r.state
       then c.pause.since == h.stretch.since && Elapsed(c.pause.reading, c.pause.since) < OP_TIMEOUT_MS
       else c.pause.since == c.pause.reading
  }

  /** Call `c` follows call `p` in a session. */
  predicate StepFollows(file: Bytes, h: Memory, p: Call, c: Call) {
    && p.m.action != Abort
    && if c.m.action == Abort then
         c.m == Message(Abort, h.session, 0, 0, []) && c.pause == NoPause && !Terminal(p.rsp.state)
       else
         && Accepted(p) && ProgressOk(file, p.rsp)
         && if p.rsp.state == NEED_DATA then DataFollows(file, h, p.rsp, c)
            else if Busy(p.rsp.state) then QueryFollows(h, p.rsp, c)
            else
              && p.rsp.state == READY_TO_FINISH
              && c.m == Message(Finish, h.session, 0, 0, []) && c.pause == NoPause
  }

  /** BEGIN `c` comes first, or after one that the device refused as busy and a second's sleep. */
  predicate BeginAfter(first: Message, start: uint64, prev: Option<Call>, c: Call) {
    && c.m == first
    && if prev.None? then c.pause == NoPause
       else
         && prev.value.rc == RESULT_BUSY
         && c.pause.Pause? && c.pause.since == start && c.pause.slept == 1000
         && Elapsed(c.pause.reading, start) < BEGIN_RETRY_MS
  }

  predicate BeginFollows(first: Message, start: uint64, begins: seq<Call>, k: nat)
    requires k < |begins|
  {
    BeginAfter(first, start, if k == 0 then None else Some(begins[k - 1]), begins[k])
  }

  predicate BeginsOk(first: Message, start: uint64, begins: seq<Call>) {
    forall k :: 0 <= k < |begins| ==> MailboxPaired(begins[k].io) && BeginFollows(first, start, begins, k)
  }

  predicate CallOk(file: Bytes, t: Trace, k: nat)
    requires t.begins != [] && k < |t.body|
  {
    MailboxPaired(t.body[k].io) && StepFollows(file, MemoryAt(t, k), Prior(t, k), t.body[k])
  }

  /** The traces of the download: each call follows from the response before it. */
  predicate ValidTrace(file: Bytes, first: Message, start: uint64, t: Trace) {
    && IsBegin(first.action) && first.payload == []
    && BeginsOk(first, start, t.begins)
    && (t.body != [] ==> Opened(file, t.begins))
    && forall k :: 0 <= k < |t.body| ==> CallOk(file, t, k)
  }

  /** The last call that is not the final ABORT. */
  function LastCall(t: Trace): Call
    requires t.begins != []
  {
    if t.body != [] && t.body[|t.body| - 1].m.action == Abort then Prior(t, |t.body| - 1) else Prior(t, |t.body|)
  }

  predicate Succeeded(file: Bytes, t: Trace) {
    Opened(file, t.begins) && Finished(file, LastCall(t))
  }

  // ---------------------------------------------------------------- why a run ends

  /** The response in hand asks for a further call. */
  predicate GoesOn(file: Bytes, p: Call) {
    && Accepted(p) && ProgressOk(file, p.rsp)
    && (p.rsp.state == NEED_DATA || Busy(p.rsp.state) || p.rsp.state == READY_TO_FINISH)
  }

  /** It cannot be made: the wait is over or has no clock, the request was just answered, is not a chunk
      of the file, or the file cannot be read. */
  predicate Stops(file: Bytes, h: Memory, r: Reply, turn: Turn) {
    if Busy(r.state) then
      turn.clock.None? ||
      (h.stretch.Waiting? && h.stretch.state == r.state &&
       Elapsed(turn.clock.value, h.stretch.since) >= OP_TIMEOUT_MS)
    else
      r.state == NEED_DATA &&
      (h.answered == Some(Asked(r)) || r.nextLength == 0 || r.nextLength > CHUNK ||
       r.nextOffset + r.nextLength > Size32(file) || !turn.readOk)
  }

  /** A call of the session heard what the environment decided in a turn. */
  predicate Heard(c: Call, turn: Turn) {
    AnsweredBy(c, turn.answer) && (c.pause.Pause? ==> turn.clock == Some(c.pause.reading))
  }

  predicate BodyHeard(body: seq<Call>, turns: seq<Turn>) {
    |body| <= |turns| && forall k :: 0 <= k < |body| ==> Heard(body[k], turns[k])
  }

  /** A repeated BEGIN reads the clock in the turn before. */
  predicate ClockHeard(c: Call, prev: Option<Turn>, turn: Turn) {
    && AnsweredBy(c, turn.answer)
    && (prev.Some? && c.pause.Pause? ==> prev.value.clock == Some(c.pause.reading))
  }

  predicate BeginHeard(begins: seq<Call>, turns: seq<Turn>, k: nat)
    requires k < |begins| <= |turns|
  {
    ClockHeard(begins[k], if k == 0 then None else Some(turns[k - 1]), turns[k])
  }

  predicate BeginsHeard(begins: seq<Call>, turns: seq<Turn>) {
    |begins| <= |turns| && forall k :: 0 <= k < |begins| ==> BeginHeard(begins, turns, k)
  }

  /** No further BEGIN: it was not refused as busy, or the time for retries is over. */
  predicate BeginStops(start: uint64, c: Call, turn: Turn) {
    c.rc != RESULT_BUSY || turn.clock.None? || Elapsed(turn.clock.value, start) >= BEGIN_RETRY_MS
  }

  /** A session is over when no further call is asked for, or it cannot be made. */
  predicate SessionOver(file: Bytes, t: Trace, turns: seq<Turn>)
    requires t.begins != []
  {
    var n := |t.body|;
    !GoesOn(file, Prior(t, n)) || (n < |turns| && Stops(file, MemoryAt(t, n), Prior(t, n).rsp, turns[n]))
  }

  // ---------------------------------------------------------------- the download

  const IMAGE_SOC_RT_BL2: uint32 := 1
  const IMAGE_UNION: uint32 := 255

  /** BEGIN carries the file size and the chunk size in the offset and sequence fields. */
  function BeginMessage(file: Bytes, image: uint32, partition: uint32): (m: Message)
    ensures IsBegin(m.action) && m.payload == []
  {
    Message(if image == IMAGE_SOC_RT_BL2 then BeginSocRt else Begin,
            if image == IMAGE_UNION then partition else 0, Size32(file), CHUNK, [])
  }

  lemma ExtendBegins(first: Message, start: uint64, begins: seq<Call>, c: Call)
    requires BeginsOk(first, start, begins) && MailboxPaired(c.io)
    requires BeginAfter(first, start, if begins == [] then None else Some(begins[|begins| - 1]), c)
    ensures BeginsOk(first, start, begins + [c])
  {
    var longer := begins + [c];
    forall k | 0 <= k < |longer| ensures MailboxPaired(longer[k].io) && BeginFollows(first, start, longer, k) {
      if k < |begins| {
        assert longer[k] == begins[k] && (k > 0 ==> longer[k - 1] == begins[k - 1]);
        assert BeginFollows(first, start, begins, k);
      }
    }
  }

  lemma HeardBegin(begins: seq<Call>, turns: seq<Turn>, c: Call)
    requires BeginsHeard(begins, turns) && |begins| < |turns|
    requires ClockHeard(c, if begins == [] then None else Some(turns[|begins| - 1]), turns[|begins|])
    ensures BeginsHeard(begins + [c], turns)
  {
    var longer := begins + [c];
    forall k | 0 <= k < |longer| ensures BeginHeard(longer, turns, k) {
      if k < |begins| { assert longer[k] == begins[k] && BeginHeard(begins, turns, k); }
    }
  }

  lemma {:induction false} LastAnsweredExtend(t: Trace, c: Call, k: nat)
    requires t.begins != [] && k <= |t.body|
    ensures LastAnswered(t.(body := t.body + [c]), k) == LastAnswered(t, k)
  {
    if k > 0 { LastAnsweredExtend(t, c, k - 1); }
  }

  lemma MemoryExtend(t: Trace, c: Call, k: nat)
    requires t.begins != [] && k <= |t.body|
    ensures var u := t.(body := t.body + [c]); MemoryAt(u, k) == MemoryAt(t, k) && Prior(u, k) == Prior(t, k)
  {
    LastAnsweredExtend(t, c, k);
  }

  /** A call that follows from a valid trace extends it. */
  lemma ExtendBody(file: Bytes, first: Message, start: uint64, t: Trace, c: Call)
    requires ValidTrace(file, first, start, t) && Opened(file, t.begins) && MailboxPaired(c.io)
    requires StepFollows(file, MemoryAt(t, |t.body|), Prior(t, |t.body|), c)
    ensures ValidTrace(file, first, start, t.(body := t.body + [c]))
  {
    var u := t.(body := t.body + [c]);
    forall k | 0 <= k < |u.body| ensures CallOk(file, u, k) {
      MemoryExtend(t, c, k);
      assert k < |t.body| ==> CallOk(file, t, k);
    }
  }

  /** Between two BEGINs: the last one was refused as busy, and a pause in time is due. */
  predicate Beginning(m: Message, start: uint64, begins: seq<Call>, turns: seq<Turn>, pause: Pause) {
    && BeginsOk(m, start, begins) && BeginsHeard(begins, turns)
    && if begins == [] then pause == NoPause
       else
         var last := |begins| - 1;
         && !BeginStops(start, begins[last], turns[last])
         && pause == Pause(turns[last].clock.value, start, 1000)
  }

  lemma BeginTaken(m: Message, start: uint64, begins: seq<Call>, turns: seq<Turn>, pause: Pause, c: Call)
    requires Beginning(m, start, begins, turns, pause) && |begins| < |turns|
    requires c.m == m && c.pause == pause && MailboxPaired(c.io) && AnsweredBy(c, turns[|begins|].answer)
    ensures BeginsOk(m, start, begins + [c]) && BeginsHeard(begins + [c], turns)
    ensures var turn := turns[|begins|];
            !BeginStops(start, c, turn) ==> Beginning(m, start, begins + [c], turns, Pause(turn.clock.value, start, 1000))
  {
    ExtendBegins(m, start, begins, c);
    HeardBegin(begins, turns, c);
    assert (begins + [c])[|begins|] == c;
  }

  /** Sends BEGIN until the device is no longer busy, at most for a limited time. `ended` is false when
      the inputs run out first. */
  method BeginSession(m: Message, start: uint64, turns: seq<Turn>)
    returns (begins: seq<Call>, used: nat, ended: bool)
    requires IsBegin(m.action) && |m.payload| <= CHUNK
    ensures BeginsOk(m, start, begins) && BeginsHeard(begins, turns) && used == |begins|
    ensures ended <==> begins != [] && BeginStops(start, begins[used - 1], turns[used - 1])
    ensures !ended ==> used == |turns|
  {
    begins, used := [], 0;
    var pause := NoPause;
    while used < |turns|
      invariant used == |begins| <= |turns|
      invariant Beginning(m, start, begins, turns, pause)
    {
      var turn := turns[used];
      var c := FwdownloadSend(m, pause, turn.answer);
      BeginTaken(m, start, begins, turns, pause, c);
      begins, used := begins + [c], used + 1;
      if c.rc != RESULT_BUSY { return begins, used, true; }
      if turn.clock.None? { return begins, used, true; }
      if Elapsed(turn.clock.value, start) >= BEGIN_RETRY_MS { return begins, used, true; }
      pause := Pause(turn.clock.value, start, 1000);
    }
    ended := false;
  }

  datatype Move = Stop | Send(c: Call)

  /** One turn of the session loop, once the response in hand asks for a further call. */
  method SessionTurn(file: Bytes, h: Memory, p: Call, turn: Turn) returns (move: Move)
    requires p.m.action != Abort && GoesOn(file, p)
    ensures move.Stop? <==> Stops(file, h, p.rsp, turn)
    ensures move.Send? ==> move.c.m.action != Abort && MailboxPaired(move.c.io) && StepFollows(file, h, p, move.c)
    ensures move.Send? ==> Heard(move.c, turn)
  {
    var r := p.rsp;
    var c: Call;
    if Busy(r.state) {
      if turn.clock.None? { return Stop; }
      var now := turn.clock.value;
      var since := now;
      if h.stretch.Waiting? && h.stretch.state == r.state {
        since := h.stretch.since;
        if Elapsed(now, since) >= OP_TIMEOUT_MS { return Stop; }
      }
      var retry := if r.retryAfterMs == 0 then 10 else r.retryAfterMs;
      if retry > 1000 { retry := 1000; }
      c := FwdownloadSend(Message(Query, h.session, 0, 0, []), Pause(now, since, retry), turn.answer);
    } else if r.state == NEED_DATA {
      if h.answered == Some(Asked(r)) { return Stop; }
      if r.nextLength == 0 || r.nextLength > CHUNK || r.nextOffset > Size32(file) ||
         r.nextLength > Size32(file) - r.nextOffset { return Stop; }
      if !turn.readOk { return Stop; }
      var chunk := file[r.nextOffset..r.nextOffset + r.nextLength];
      c := FwdownloadSend(Message(Data, h.session, r.nextOffset, Next32(r.acceptedSequence), chunk),
                          NoPause, turn.answer);
    } else {
      c := FwdownloadSend(Message(Finish, h.session, 0, 0, []), NoPause, turn.answer);
    }
    return Send(c);
  }

  predicate NoAbort(t: Trace) { forall k :: 0 <= k < |t.body| ==> t.body[k].m.action != Abort }

  /** A session so far: a valid trace that heard what the environment decided, without an ABORT. */
  predicate InSession(file: Bytes, first: Message, start: uint64, t: Trace, turns: seq<Turn>) {
    ValidTrace(file, first, start, t) && Opened(file, t.begins) && NoAbort(t) && BodyHeard(t.body, turns)
  }

  /** What the host remembers after call `c`, made in answer to `r`. */
  function Remember(h: Memory, r: Reply, c: Call): Memory {
    Memory(h.session,
           if c.m.action == Data then Some(Asked(r)) else h.answered,
           match c.pause case NoPause => Idle case Pause(_, since, _) => Waiting(r.state, since))
  }

  lemma SessionExtends(file: Bytes, first: Message, start: uint64, t: Trace, turns: seq<Turn>, c: Call)
    requires InSession(file, first, start, t, turns) && |t.body| < |turns|
    requires MailboxPaired(c.io) && StepFollows(file, MemoryAt(t, |t.body|), Prior(t, |t.body|), c)
    requires c.m.action != Abort && Heard(c, turns[|t.body|])
    ensures var u := t.(body := t.body + [c]);
            && InSession(file, first, start, u, turns) && Prior(u, |u.body|) == c
            && MemoryAt(u, |u.body|) == Remember(MemoryAt(t, |t.body|), Prior(t, |t.body|).rsp, c)
  {
    ExtendBody(file, first, start, t, c);
    BodyExtends(t, turns, c);
    MemoryNext(t, c);
  }

  lemma BodyExtends(t: Trace, turns: seq<Turn>, c: Call)
    requires NoAbort(t) && BodyHeard(t.body, turns) && |t.body| < |turns|
    requires c.m.action != Abort && Heard(c, turns[|t.body|])
    ensures NoAbort(t.(body := t.body + [c])) && BodyHeard(t.body + [c], turns)
  {
  }

  lemma MemoryNext(t: Trace, c: Call)
    requires t.begins != []
    ensures var u := t.(body := t.body + [c]);
            && Prior(u, |u.body|) == c
            && MemoryAt(u, |u.body|) == Remember(MemoryAt(t, |t.body|), Prior(t, |t.body|).rsp, c)
  {
    MemoryExtend(t, c, |t.body|);
  }

  predicate Finished(file: Bytes, c: Call) { Accepted(c) && ProgressOk(file, c.rsp) && c.rsp.state == COMPLETE }

  /** The session loop. `ended` is false when the inputs run out first. */
  method RunSession(file: Bytes, first: Message, start: uint64, begins: seq<Call>, turns: seq<Turn>)
    returns (t: Trace, rc: int, ended: bool)
    requires InSession(file, first, start, Trace(begins, []), turns)
    ensures InSession(file, first, start, t, turns) && t.begins == begins
    ensures rc == 0 || rc == -1
    ensures rc == 0 <==> ended && Finished(file, Prior(t, |t.body|))
    ensures ended <==> SessionOver(file, t, turns)
    ensures !ended ==> |t.body| == |turns|
  {
    t := Trace(begins, []);
    var p := begins[|begins| - 1];
    var memory := Memory(p.rsp.session, None, Idle);
    var used := 0;
    while true
      invariant used == |t.body| <= |turns|
      invariant InSession(file, first, start, t, turns) && t.begins == begins
      invariant p == Prior(t, |t.body|) && memory == MemoryAt(t, |t.body|)
      invariant Accepted(p)
      decreases |turns| - used
    {
      var r := p.rsp;
      if r.total != Size32(file) || r.received > r.total { return t, -1, true; }
      if r.state == COMPLETE { return t, 0, true; }
      if r.state != NEED_DATA && !Busy(r.state) && r.state != READY_TO_FINISH { return t, -1, true; }
      if used == |turns| { return t, -1, false; }
      var move := SessionTurn(file, memory, p, turns[used]);
      if move.Stop? { return t, -1, true; }
      p := move.c;
      SessionExtends(file, first, start, t, turns, p);
      t, memory, used := t.(body := t.body + [p]), Remember(memory, r, p), used + 1;
      if p.rc != 0 { return t, -1, true; }
      if p.m.action == Data && p.rsp.acceptedSequence != p.m.sequence { return t, -1, true; }
    }
  }

  predicate AbortTried(t: Trace) { t.body != [] && t.body[|t.body| - 1].m.action == Abort }

  /** The run without the ABORT that may end it. */
  function Worked(t: Trace): Trace {
    if AbortTried(t) then t.(body := t.body[..|t.body| - 1]) else t
  }

  /** Tries an ABORT unless the device has reached a terminal state. */
  method AbortSession(file: Bytes, first: Message, start: uint64, t: Trace, abortAnswer: Answer) returns (u: Trace)
    requires ValidTrace(file, first, start, t) && Opened(file, t.begins) && NoAbort(t)
    ensures ValidTrace(file, first, start, u) && u.begins == t.begins && Worked(u) == t
    ensures LastCall(u) == Prior(t, |t.body|)
    ensures AbortTried(u) <==> !Terminal(LastCall(u).rsp.state)
    ensures AbortTried(u) ==> AnsweredBy(u.body[|u.body| - 1], abortAnswer)
  {
    u := t;
    var p := Prior(t, |t.body|);
    assert t.body != [] ==> t.body[|t.body| - 1].m.action != Abort;
    if !Terminal(p.rsp.state) {
      var c := FwdownloadSend(Message(Abort, Session(t), 0, 0, []), NoPause, abortAnswer);
      AbortFollows(file, first, start, t, c);
      u := t.(body := t.body + [c]);
    }
  }

  lemma AbortFollows(file: Bytes, first: Message, start: uint64, t: Trace, c: Call)
    requires ValidTrace(file, first, start, t) && Opened(file, t.begins) && NoAbort(t) && MailboxPaired(c.io)
    requires c.m == Message(Abort, Session(t), 0, 0, []) && c.pause == NoPause
    requires !Terminal(Prior(t, |t.body|).rsp.state)
    ensures var u := t.(body := t.body + [c]);
            ValidTrace(file, first, start, u) && Worked(u) == t && LastCall(u) == Prior(t, |t.body|)
  {
    assert t.begins[|t.begins| - 1].m.action != Abort by { assert BeginFollows(first, start, t.begins, |t.begins| - 1); }
    ExtendBody(file, first, start, t, c);
    MemoryExtend(t, c, |t.body|);
  }

  /** The run heard exactly what the environment decided. */
  predicate RunHeard(t: Trace, turns: seq<Turn>, abortAnswer: Answer) {
    && BeginsHeard(t.begins, turns)
    && BodyHeard(Worked(t).body, turns[|t.begins|..])
    && (AbortTried(t) ==> AnsweredBy(t.body[|t.body| - 1], abortAnswer))
  }

  /** Neither a BEGIN nor a session call can follow. */
  predicate RunOver(file: Bytes, start: uint64, t: Trace, turns: seq<Turn>)
    requires 0 < |t.begins| <= |turns|
  {
    var last := |t.begins| - 1;
    && BeginStops(start, t.begins[last], turns[last])
    && (Opened(file, t.begins) ==> SessionOver(file, Worked(t), turns[|t.begins|..]))
  }

  /** How a run that got as far as a BEGIN ends. Whatever the environment answers, it is a valid trace
      that heard just that; it ends only when no call can follow; it returns 0 exactly when the last
      response is an accepted COMPLETE with the right total; and ABORT is tried exactly when a session
      was opened and the last state is not terminal. */
  predicate Outcome(file: Bytes, first: Message, start: uint64, turns: seq<Turn>, abortAnswer: Answer,
                    t: Trace, rc: int, ended: bool)
    requires t.begins != []
  {
    && ValidTrace(file, first, start, t)
    && RunHeard(t, turns, abortAnswer)
    && (ended <==> RunOver(file, start, t, turns)) && (!ended ==> |t.begins| + |t.body| == |turns|)
    && (rc == 0 <==> ended && Succeeded(file, t))
    && (AbortTried(t) <==> ended && Opened(file, t.begins) && !Terminal(LastCall(t).rsp.state))
  }

  /** The same of a run with a session, in terms of the turns it took. */
  predicate SessionOutcome(file: Bytes, first: Message, start: uint64, turns: seq<Turn>, abortAnswer: Answer,
                           t: Trace, rc: int, ended: bool)
    requires t.begins != []
  {
    && ValidTrace(file, first, start, t) && BodyHeard(Worked(t).body, turns)
    && (AbortTried(t) ==> AnsweredBy(t.body[|t.body| - 1], abortAnswer))
    && (ended <==> SessionOver(file, Worked(t), turns)) && (!ended ==> |t.body| == |turns|)
    && (rc == 0 <==> ended && Succeeded(file, t))
    && (AbortTried(t) <==> ended && !Terminal(LastCall(t).rsp.state))
  }

  lemma SessionIsOutcome(file: Bytes, first: Message, start: uint64, turns: seq<Turn>, abortAnswer: Answer,
                         t: Trace, rc: int, ended: bool)
    requires t.begins != [] && BeginsHeard(t.begins, turns) && Opened(file, t.begins)
    requires SessionOutcome(file, first, start, turns[|t.begins|..], abortAnswer, t, rc, ended)
    ensures Outcome(file, first, start, turns, abortAnswer, t, rc, ended)
  {
    OpenedStops(file, start, t, turns);
  }

  lemma OpenedStops(file: Bytes, start: uint64, t: Trace, turns: seq<Turn>)
    requires 0 < |t.begins| <= |turns| && Opened(file, t.begins)
    ensures RunOver(file, start, t, turns) <==> SessionOver(file, Worked(t), turns[|t.begins|..])
  {
  }

  /** The part of the download inside a session. */
  method DownloadSession(file: Bytes, first: Message, start: uint64, begins: seq<Call>, turns: seq<Turn>,
                         abortAnswer: Answer)
    returns (t: Trace, rc: int, ended: bool)
    requires InSession(file, first, start, Trace(begins, []), turns)
    ensures rc == 0 || rc == -1
    ensures t.begins == begins && SessionOutcome(file, first, start, turns, abortAnswer, t, rc, ended)
  {
    t, rc, ended := RunSession(file, first, start, begins, turns);
    assert t.body != [] ==> t.body[|t.body| - 1].m.action != Abort;
    if ended {
      t := AbortSession(file, first, start, t, abortAnswer);
    }
  }

  /** A run that opened no session. */
  lemma NotOpened(file: Bytes, first: Message, start: uint64, turns: seq<Turn>, abortAnswer: Answer, begins: seq<Call>)
    requires IsBegin(first.action) && first.payload == [] && begins != []
    requires BeginsOk(first, start, begins) && BeginsHeard(begins, turns) && !Opened(file, begins)
    ensures var last := |begins| - 1;
            var ended := BeginStops(start, begins[last], turns[last]);
            (ended || |begins| == |turns|) ==> Outcome(file, first, start, turns, abortAnswer, Trace(begins, []), -1, ended)
  {
  }

  /** The download from the first BEGIN on. */
  method DownloadImage(file: Bytes, first: Message, start: uint64, turns: seq<Turn>, abortAnswer: Answer)
    returns (t: Trace, rc: int, ended: bool)
    requires IsBegin(first.action) && first.payload == []
    ensures rc == 0 || rc == -1
    ensures turns != [] ==> t.begins != [] && Outcome(file, first, start, turns, abortAnswer, t, rc, ended)
    ensures turns == [] ==> t == Trace([], []) && rc == -1
  {
    var begins, used, begun := BeginSession(first, start, turns);
    t, rc, ended := Trace(begins, []), -1, begun;
    if begins == [] { return; }
    var last := begins[|begins| - 1];
    if !begun || last.rc != 0 || last.rsp.session == 0 || last.rsp.state != NEED_DATA || last.rsp.total != Size32(file) {
      NotOpened(file, first, start, turns, abortAnswer, begins);
      return;
    }
    t, rc, ended := DownloadSession(file, first, start, begins, turns[used..], abortAnswer);
    SessionIsOutcome(file, first, start, turns, abortAnswer, t, rc, ended);
  }

  /** The whole download of an image, against any environment. */
  method Download(input: Option<Bytes>, image: uint32, partition: uint32, clock: Option<uint64>,
                  turns: seq<Turn>, abortAnswer: Answer)
    returns (t: Trace, rc: int, ended: bool)
    ensures rc == 0 || rc == -1
    ensures input.None? || |input.value| < 116 || clock.None? || turns == [] ==> t == Trace([], []) && rc == -1
    ensures input.Some? && |input.value| >= 116 && clock.Some? && turns != [] ==>
      var first := BeginMessage(input.value, image, partition);
      t.begins != [] && Outcome(input.value, first, clock.value, turns, abortAnswer, t, rc, ended)
  {
    t, rc, ended := Trace([], []), -1, true;
    if input.None? { return; }
    var file := input.value;
    if |file| < MIN_IMAGE { return; }
    if clock.None? { return; }
    var first := BeginMessage(file, image, partition);
    t, rc, ended := DownloadImage(file, first, clock.value, turns, abortAnswer);
  }
}
