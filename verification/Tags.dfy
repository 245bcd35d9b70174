/** Stale replies: over every run of commands, timeouts and late deliveries on one endpoint, the tag
    counter keeps a reply to an earlier command from being taken for the reply to a later one. */
module Tags {
  import opened Wire
  import opened Cci
  import opened Mctp

  datatype Command = Command(hops: seq<Hop>, commandSet: byte, command: byte, payload: Bytes, sz: nat, szMin: nat)

  /** What the socket yields while a command waits: nothing usable, or a datagram that answers the
      message sent by command number `from`, this one or an earlier one. */
  datatype Event = Silent(r: Recv) | Delivered(from: nat, d: Bytes)

  datatype Step = Step(cmd: Command, event: Event)

  /** The tag counter after a run that started at `start`: arming takes one tag, each level another. */
  function Counter(run: seq<Step>, start: nat): nat {
    if run == [] then start
    else Counter(run[..|run| - 1], start) + 1 + |run[|run| - 1].cmd.hops|
  }

  /** The counter value behind the tag of the outermost message of command `k`. */
  function OuterCounter(run: seq<Step>, start: nat, k: nat): nat
    requires k < |run|
  {
    Counter(run[..k], start) + |run[k].cmd.hops|
  }

  function Armed(cmd: Command, counter: nat): (req: Bytes)
    ensures IsMessage(req)
  {
    RequestHeader(counter, cmd.command, cmd.commandSet, |cmd.payload|) + cmd.payload
  }

  /** A request armed at counter `c` and wrapped for a path of `hops`. */
  function Nested(hops: seq<Hop>, cmd: Command, c: nat): (m: Bytes)
    ensures |m| >= 16 * |hops| + HEADER
  {
    Nest(hops, c + 1, Armed(cmd, c))
  }

  /** The bytes that command `k` puts on the wire. */
  function Sent(run: seq<Step>, start: nat, k: nat): (m: Bytes)
    requires k < |run|
    ensures |m| >= 16 * |run[k].cmd.hops| + HEADER
  {
    var c := Counter(run[..k], start);
    Nested(run[k].cmd.hops, run[k].cmd, c)
  }

  /** Command `k` has room for a response, and what it hears is no datagram, or answers a message sent
      by then. */
  predicate ValidStep(run: seq<Step>, start: nat, k: nat)
    requires k < |run|
  {
    run[k].cmd.sz >= HEADER &&
    match run[k].event
    case Silent(r) => !r.Datagram?
    case Delivered(from, d) => from <= k && (IsMessage(d) ==> Tag(d) == Tag(Sent(run, start, from)))
  }

  predicate Valid(run: seq<Step>, start: nat) { forall k :: 0 <= k < |run| ==> ValidStep(run, start, k) }

  function Got(event: Event): Recv { match event case Silent(r) => r case Delivered(_, d) => Datagram(d) }

  function ResultOf(run: seq<Step>, start: nat, k: nat): Result
    requires k < |run| && Valid(run, start)
  {
    var cmd := run[k].cmd;
    assert ValidStep(run, start, k);
    Deliver(|cmd.hops|, Sent(run, start, k), Got(run[k].event), cmd.sz, cmd.szMin)
  }

  /** A command that was answered: successfully, or with a device's error code. */
  predicate Answered(run: seq<Step>, start: nat, k: nat)
    requires k < |run| && Valid(run, start)
  {
    ResultOf(run, start, k) != Fail(-1)
  }

  // ---------------------------------------------------------------- tags

  /** Level `j` of a nested request, counted from the outside, carries the counter value of the
      outermost message minus `j`; so the messages of one command have consecutive tags. */
  lemma {:induction false} NestedTags(hops: seq<Hop>, cmd: Command, c: nat, j: nat)
    requires j <= |hops|
    ensures Nested(hops, cmd, c)[16 * j + 1] == (c + |hops| - j) % 256
  {
    if j == 0 {
      OuterTag(hops, cmd, c);
    } else {
      NestedTags(hops[1..], cmd, c, j - 1);
      InnerByte(hops, cmd, c, 16 * (j - 1) + 1);
    }
  }

  lemma {:induction false} OuterTag(hops: seq<Hop>, cmd: Command, c: nat)
    ensures Nested(hops, cmd, c)[1] == (c + |hops|) % 256
  {
    var m := Nested(hops, cmd, c);
    if hops != [] { assert m[1] == m[..HEADER][1]; }
  }

  lemma {:induction false} InnerByte(hops: seq<Hop>, cmd: Command, c: nat, i: nat)
    requires hops != [] && i < |Nested(hops[1..], cmd, c)|
    ensures 16 + i < |Nested(hops, cmd, c)| && Nested(hops, cmd, c)[16 + i] == Nested(hops[1..], cmd, c)[i]
  {
    var m := Nested(hops, cmd, c);
    assert m[LEVEL..] == Nested(hops[1..], cmd, c);
    assert m[16 + i] == m[LEVEL..][i];
  }

  lemma NestedTagsDistinct(hops: seq<Hop>, cmd: Command, c: nat, i: nat, j: nat)
    requires i < j <= |hops| && j - i < 256
    ensures var m := Nested(hops, cmd, c); m[16 * i + 1] != m[16 * j + 1]
  {
    NestedTags(hops, cmd, c, i);
    NestedTags(hops, cmd, c, j);
    SameResidue(c + |hops| - i, c + |hops| - j);
  }

  lemma {:induction false} CounterRises(run: seq<Step>, start: nat, i: nat, k: nat)
    requires i < k < |run|
    ensures OuterCounter(run, start, i) < OuterCounter(run, start, k)
  {
    assert run[..k][..k - 1] == run[..k - 1];
    if i < k - 1 { CounterRises(run, start, i, k - 1); }
  }

  // ---------------------------------------------------------------- stale replies

  /** Over every run: an answered command took a datagram whose tag counter differs from its own by a
      multiple of 256. A late reply needs at least 256 tags between the two commands. */
  lemma NoStaleReply(run: seq<Step>, start: nat, k: nat)
    requires k < |run| && Valid(run, start) && Answered(run, start, k)
    ensures run[k].event.Delivered? && run[k].event.from <= k
    ensures var from := run[k].event.from;
            && (OuterCounter(run, start, k) - OuterCounter(run, start, from)) % 256 == 0
            && (from < k ==> OuterCounter(run, start, k) - OuterCounter(run, start, from) >= 256)
  {
    AnswerCarriesTag(run, start, k);
    SameTopTag(run, start, k, run[k].event.from);
  }

  lemma AnswerCarriesTag(run: seq<Step>, start: nat, k: nat)
    requires k < |run| && Valid(run, start) && Answered(run, start, k)
    ensures run[k].event.Delivered? && run[k].event.from <= k
    ensures Tag(Sent(run, start, k)) == Tag(Sent(run, start, run[k].event.from))
  {
    var cmd := run[k].cmd;
    assert ValidStep(run, start, k);
    TopLevelChecked(|cmd.hops|, Sent(run, start, k), run[k].event.d, cmd.sz, cmd.szMin);
  }

  lemma SameTopTag(run: seq<Step>, start: nat, k: nat, i: nat)
    requires i <= k < |run| && Tag(Sent(run, start, k)) == Tag(Sent(run, start, i))
    ensures (OuterCounter(run, start, k) - OuterCounter(run, start, i)) % 256 == 0
    ensures i < k ==> OuterCounter(run, start, k) - OuterCounter(run, start, i) >= 256
  {
    NestedTags(run[k].cmd.hops, run[k].cmd, Counter(run[..k], start), 0);
    NestedTags(run[i].cmd.hops, run[i].cmd, Counter(run[..i], start), 0);
    SameResidue(OuterCounter(run, start, k), OuterCounter(run, start, i));
    if i < k { CounterRises(run, start, i, k); }
  }

  lemma TopLevelChecked(n: nat, sent: Bytes, d: Bytes, sz: nat, szMin: nat)
    requires |sent| >= 16 * n + HEADER && sz >= HEADER && Deliver(n, sent, Datagram(d), sz, szMin) != Fail(-1)
    ensures IsMessage(d) && Tag(d) == Tag(sent) && SameOpcode(d, sent)
  {
  }

  lemma SameResidue(a: int, b: int)
    ensures a % 256 == b % 256 <==> (a - b) % 256 == 0
    ensures a % 256 == b % 256 && a > b ==> a - b >= 256
  {
  }

  /** The exact condition: a reply that answers one command also answers another of the same shape
      if and only if their counters differ by a multiple of 256. */
  lemma StaleReplyAcceptedIff(hops: seq<Hop>, a: Command, ca: nat, b: Command, cb: nat, d: Bytes, sz: nat, szMin: nat)
    requires a.command == b.command && a.commandSet == b.commandSet && sz >= HEADER
    requires Deliver(|hops|, Nested(hops, a, ca), Datagram(d), sz, szMin) != Fail(-1)
    ensures Deliver(|hops|, Nested(hops, b, cb), Datagram(d), sz, szMin) != Fail(-1) <==> (ca - cb) % 256 == 0
  {
    if (ca - cb) % 256 == 0 {
      SameVerdict(hops, a, ca, b, cb, d, sz, szMin);
    } else if Deliver(|hops|, Nested(hops, b, cb), Datagram(d), sz, szMin) != Fail(-1) {
      SameCounters(hops, a, ca, b, cb, d, sz, szMin);
    }
  }

  lemma SameVerdict(hops: seq<Hop>, a: Command, ca: nat, b: Command, cb: nat, d: Bytes, sz: nat, szMin: nat)
    requires a.command == b.command && a.commandSet == b.commandSet && sz >= HEADER && (ca - cb) % 256 == 0
    ensures Deliver(|hops|, Nested(hops, a, ca), Datagram(d), sz, szMin)
         == Deliver(|hops|, Nested(hops, b, cb), Datagram(d), sz, szMin)
  {
    UnwindSeesTagsOnly(hops, a, ca, b, cb, Filled(d, 16 * |hops| + sz), Min(|d|, 16 * |hops| + sz), sz, szMin);
  }

  lemma SameCounters(hops: seq<Hop>, a: Command, ca: nat, b: Command, cb: nat, d: Bytes, sz: nat, szMin: nat)
    requires sz >= HEADER
    requires Deliver(|hops|, Nested(hops, a, ca), Datagram(d), sz, szMin) != Fail(-1)
    requires Deliver(|hops|, Nested(hops, b, cb), Datagram(d), sz, szMin) != Fail(-1)
    ensures (ca - cb) % 256 == 0
  {
    TopLevelChecked(|hops|, Nested(hops, a, ca), d, sz, szMin);
    TopLevelChecked(|hops|, Nested(hops, b, cb), d, sz, szMin);
    NestedTags(hops, a, ca, 0);
    NestedTags(hops, b, cb, 0);
    SameResidue(ca + |hops|, cb + |hops|);
  }

  lemma {:induction false} UnwindSeesTagsOnly(hops: seq<Hop>, a: Command, ca: nat, b: Command, cb: nat,
                                              buf: Bytes, len: nat, sz: nat, szMin: nat)
    requires a.command == b.command && a.commandSet == b.commandSet && (ca - cb) % 256 == 0
    requires sz >= HEADER && |buf| == 16 * |hops| + sz
    ensures Unwind(|hops|, Nested(hops, a, ca), buf, len, sz, szMin)
         == Unwind(|hops|, Nested(hops, b, cb), buf, len, sz, szMin)
  {
    HeadersAgree(hops, a, ca, b, cb);
    if hops != [] && len >= LEVEL {
      UnwindSeesTagsOnly(hops[1..], a, ca, b, cb, buf[LEVEL..], len - LEVEL, sz, szMin);
    }
  }

  lemma HeadersAgree(hops: seq<Hop>, a: Command, ca: nat, b: Command, cb: nat)
    requires a.command == b.command && a.commandSet == b.commandSet && (ca - cb) % 256 == 0
    ensures Tag(Nested(hops, a, ca)) == Tag(Nested(hops, b, cb))
    ensures SameOpcode(Nested(hops, a, ca), Nested(hops, b, cb))
  {
    NestedTags(hops, a, ca, 0);
    NestedTags(hops, b, cb, 0);
    SameResidue(ca + |hops|, cb + |hops|);
    NestedOpcode(hops, a, ca);
    NestedOpcode(hops, b, cb);
  }

  lemma NestedOpcode(hops: seq<Hop>, cmd: Command, c: nat)
    ensures var m := Nested(hops, cmd, c);
            if hops == [] then m[3] == cmd.command && m[4] == cmd.commandSet
            else m[3] == TUNNEL_COMMAND && m[4] == MLD_PORT
  {
    var m := Nested(hops, cmd, c);
    assert hops != [] ==> m[3] == m[..HEADER][3] && m[4] == m[..HEADER][4];
  }

  // ---------------------------------------------------------------- runs of an endpoint

  /** The library knows paths of up to two hops. */
  predicate Reachable(run: seq<Step>) { forall k :: 0 <= k < |run| ==> |run[k].cmd.hops| <= 2 }

  function InfoOf(hops: seq<Hop>): (ti: Option<TunnelInfo>)
    requires |hops| <= 2
    ensures Path(ti) == Some(hops)
  {
    if hops == [] then None
    else if |hops| == 1 then
      assert hops == [hops[0]];
      Some(TunnelInfo(hops[0], -1, 1))
    else
      assert hops == [hops[0], hops[1]];
      Some(TunnelInfo(hops[0], hops[1], 2))
  }

  /** Arms and sends one command. */
  method SendOne(ep: Endpoint, step: Step) returns (r: Result)
    requires ep.overMctp && ep.hasFmapi && ep.tag >= 0 && |step.cmd.hops| <= 2 && step.cmd.sz >= HEADER
    modifies ep`tag
    ensures ep.tag == old(ep.tag) + 1 + |step.cmd.hops|
    ensures var cmd := step.cmd;
            r == Deliver(|cmd.hops|, Nested(cmd.hops, cmd, old(ep.tag)), Got(step.event), cmd.sz, cmd.szMin)
  {
    var cmd, got := step.cmd, Got(step.event);
    var req := ep.ArmCciRequest(cmd.payload, cmd.commandSet, cmd.command);
    var rsp := new byte[cmd.sz];
    var rc := ep.SendCmdCci(InfoOf(cmd.hops), req, rsp, cmd.szMin, m => got);
    r := if rc != 0 then Fail(rc) else Done(rsp[..]);
  }

  lemma CounterNext(run: seq<Step>, start: nat, k: nat)
    requires k < |run|
    ensures Counter(run[..k + 1], start) == Counter(run[..k], start) + 1 + |run[k].cmd.hops|
  {
    assert run[..k + 1][..k] == run[..k];
  }

  /** Sends command `k` of a run. */
  method SendNext(ep: Endpoint, run: seq<Step>, start: nat, k: nat) returns (r: Result)
    requires Valid(run, start) && Reachable(run) && k < |run|
    requires ep.overMctp && ep.hasFmapi && ep.tag == Counter(run[..k], start)
    modifies ep`tag
    ensures ep.tag == Counter(run[..k + 1], start)
    ensures ResultIs(r, run, start, k)
  {
    CounterNext(run, start, k);
    assert ValidStep(run, start, k);
    r := SendOne(ep, run[k]);
  }

  /** These are the results of the first commands of a run. */
  ghost predicate ResultsAre(results: seq<Result>, run: seq<Step>, start: nat) {
    && Valid(run, start) && |results| <= |run|
    && forall k :: 0 <= k < |results| ==> ResultIs(results[k], run, start, k)
  }

  ghost predicate ResultIs(r: Result, run: seq<Step>, start: nat, k: nat)
    requires k < |run| && Valid(run, start)
  {
    r == ResultOf(run, start, k)
  }

  lemma {:induction false} ResultsNext(results: seq<Result>, run: seq<Step>, start: nat, r: Result)
    requires ResultsAre(results, run, start) && |results| < |run| && ResultIs(r, run, start, |results|)
    ensures ResultsAre(results + [r], run, start)
  {
    var longer := results + [r];
    forall k | 0 <= k < |longer| ensures ResultIs(longer[k], run, start, k) {
      if k < |results| { assert ResultIs(results[k], run, start, k); }
    }
  }

  /** An endpoint that arms and sends the commands of a run, from any counter value on, gets exactly the
      results that are spoken of here. */
  method Play(run: seq<Step>, start: nat) returns (results: seq<Result>)
    requires Valid(run, start) && Reachable(run)
    ensures |results| == |run| && ResultsAre(results, run, start)
  {
    var ep := new Endpoint(true, start, true);
    results := [];
    var k := 0;
    while k < |run|
      invariant 0 <= k == |results| <= |run| && ResultsAre(results, run, start)
      invariant ep.overMctp && ep.hasFmapi && ep.tag == Counter(run[..k], start)
    {
      var r := SendNext(ep, run, start, k);
      ResultsNext(results, run, start, r);
      results, k := results + [r], k + 1;
    }
  }

  // ---------------------------------------------------------------- a stale reply

  /** 257 direct commands without payload. None is answered in time, but the reply to the first arrives
      while the last one waits. */
  function LateRun(start: nat): seq<Step> {
    seq(257, i => Step(Command([], 0, 1, [], 12, 12), if i == 256 then Delivered(0, LateReply(start)) else Silent(TimedOut)))
  }

  function LateReply(start: nat): Bytes { [CATEGORY_RSP, start % 256, 0, 1, 0, 0, 0, 0, 0, 0, 0, 0] }

  lemma {:induction false} LateCounter(start: nat, k: nat)
    requires k <= 257
    ensures Counter(LateRun(start)[..k], start) == start + k
  {
    if k > 0 {
      LateCounter(start, k - 1);
      assert LateRun(start)[..k][..k - 1] == LateRun(start)[..k - 1];
    }
  }

  /** It is taken for the last one's. */
  lemma LateReplyAccepted(start: nat)
    ensures Valid(LateRun(start), start) && Reachable(LateRun(start))
    ensures LateRun(start)[256].event == Delivered(0, LateReply(start))
    ensures ResultOf(LateRun(start), start, 256) == Done(LateReply(start))
  {
    var run := LateRun(start);
    LateCounter(start, 0);
    LateCounter(start, 256);
    assert Sent(run, start, 0)[1] == start % 256;
    assert Sent(run, start, 256)[1] == (start + 256) % 256;
    assert Filled(LateReply(start), 12) == LateReply(start);
  }

  /** A reply in time is accepted too. */
  lemma PromptReplyAccepted(start: nat)
    ensures var run := [Step(Command([], 0, 1, [], 12, 12), Delivered(0, LateReply(start)))];
            Valid(run, start) && ResultOf(run, start, 0) == Done(LateReply(start))
  {
    var run := [Step(Command([], 0, 1, [], 12, 12), Delivered(0, LateReply(start)))];
    assert Sent(run, start, 0)[1] == start % 256;
    assert ValidStep(run, start, 0);
    assert Filled(LateReply(start), 12) == LateReply(start);
  }
}
