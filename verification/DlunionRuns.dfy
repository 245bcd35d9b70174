/** What every run of the firmware download guarantees, whatever the device answers. */
module DlunionRuns {
  import opened Wire
  import opened Dlunion

  predicate IsData(c: Call) { c.m.action == Data }

  // ---------------------------------------------------------------- what goes over the wire

  /** What BEGIN tells the device: the size of the image and the chunk size, the partition of a union
      image, and by its action whether the image is the SoC runtime loader. */
  lemma BeginAnnounces(file: Bytes, image: uint32, partition: uint32, start: uint64, t: Trace, k: nat)
    requires ValidTrace(file, BeginMessage(file, image, partition), start, t) && k < |t.begins|
    requires |file| < 0x1_0000_0000
    ensures var m := t.begins[k].m;
            && m.offset == |file| && m.sequence == 2016 && m.payload == []
            && m.action == (if image == 1 then BeginSocRt else Begin)
            && m.session == if image == 255 then partition else 0
  {
    assert BeginFollows(BeginMessage(file, image, partition), start, t.begins, k);
  }

  /** A repeated BEGIN follows one that was refused with code 2, within 35 seconds of the start, and a
      second's sleep; the first waits for nothing. */
  lemma BeginRepeats(file: Bytes, first: Message, start: uint64, t: Trace, k: nat)
    requires ValidTrace(file, first, start, t) && k < |t.begins|
    ensures k == 0 ==> t.begins[k].pause == NoPause
    ensures k > 0 ==>
      && t.begins[k - 1].rc == 2 && t.begins[k].pause.Pause? && t.begins[k].pause.slept == 1000
      && (t.begins[k].pause.reading - start) % 0x1_0000_0000_0000_0000 < 35000
  {
    assert BeginFollows(first, start, t.begins, k);
    if k > 0 { ElapsedIs(t.begins[k].pause.reading, start); }
  }

  lemma ElapsedIs(now: uint64, since: uint64)
    ensures Elapsed(now, since) == (now - since) % 0x1_0000_0000_0000_0000
  {
  }

  /** Every call of a session answers the state that the response before it reports: DATA a request for
      data, QUERY a busy state, FINISH readiness, each after an accepted response about this image; ABORT
      any state that is not terminal. All of them name the opened session. */
  lemma EachStateItsCall(file: Bytes, first: Message, start: uint64, t: Trace, k: nat)
    requires ValidTrace(file, first, start, t) && k < |t.body|
    ensures var p, m := Prior(t, k), t.body[k].m; var state := p.rsp.state;
            && m.session == t.begins[|t.begins| - 1].rsp.session
            && (m.action != Abort ==>
                  && p.rc == 0 && p.rsp.total == |file| % 0x1_0000_0000 && p.rsp.received <= p.rsp.total
                  && (p.m.action == Data ==> p.rsp.acceptedSequence == p.m.sequence))
            && match m.action
               case Data => state == 1
               case Query => state == 2 || state == 3 || state == 7
               case Finish => state == 4
               case Abort => state != 5 && state != 6 && state != 8
               case _ => false
  {
    assert CallOk(file, t, k);
  }

  /** What the calls carry besides: DATA what was asked for, under the next sequence number; the others
      nothing. Only QUERY waits, for as long as the device asks, ten milliseconds if it does not say, and
      never over a second. */
  lemma EachCallItsFields(file: Bytes, first: Message, start: uint64, t: Trace, k: nat)
    requires ValidTrace(file, first, start, t) && k < |t.body|
    ensures Fields(Prior(t, k).rsp, t.body[k])
  {
    assert CallOk(file, t, k);
    StepFields(file, MemoryAt(t, k), Prior(t, k), t.body[k]);
  }

  predicate Fields(r: Reply, c: Call) {
    && (if c.m.action == Data
        then c.m.offset == r.nextOffset && |c.m.payload| == r.nextLength
             && c.m.sequence == (r.acceptedSequence + 1) % 0x1_0000_0000
        else c.m.offset == 0 && c.m.sequence == 0 && c.m.payload == [])
    && if c.m.action == Query
       then c.pause.Pause? && c.pause.slept == (if r.retryAfterMs == 0 then 10 else Min(r.retryAfterMs, 1000))
       else c.pause == NoPause
  }

  lemma StepFields(file: Bytes, h: Memory, p: Call, c: Call)
    requires StepFollows(file, h, p, c)
    ensures Fields(p.rsp, c)
  {
  }

  /** Every message of a run, BEGIN to ABORT, sits in its own unlock and lock, unless the unlock fails. */
  lemma EverySendPaired(file: Bytes, first: Message, start: uint64, t: Trace, c: Call)
    requires ValidTrace(file, first, start, t) && (c in t.begins || c in t.body)
    ensures c.io == [Unlock(false)] || (|c.io| == 3 && c.io[0] == Unlock(true) && c.io[1].Mailbox? && c.io[2].Lock?)
  {
    if c in t.begins {
      var k :| 0 <= k < |t.begins| && t.begins[k] == c;
      assert BeginFollows(first, start, t.begins, k);
    } else {
      var k :| 0 <= k < |t.body| && t.body[k] == c;
      assert CallOk(file, t, k);
    }
  }

  /** When an answer counts: code 0 exactly for a paired send whose reply speaks version 1, names the
      session (BEGIN has none yet) and reports no error; a device's error is the code; all else is -1. */
  lemma AnswerCounts(c: Call, a: Answer)
    requires AnsweredBy(c, a)
    ensures var heard := a.unlockOk && a.mailboxRc == 0;
            var counts := heard && a.lockOk && a.reply.version == 1 &&
                          (c.m.action == Begin || c.m.action == BeginSocRt || a.reply.session == c.m.session);
            && (c.rc == 0 <==> counts && a.reply.result == 0)
            && (counts ==> c.rc % 0x1_0000_0000 == a.reply.result && -0x8000_0000 <= c.rc < 0x8000_0000)
            && (!counts ==> c.rc == -1)
            && c.rsp == if heard then a.reply else Reply(0, 0, 0, 0, 0, 0, 0, 0, 0, 0, 0)
  {
  }

  /** A run returns 0 exactly when the last response before any ABORT is accepted, reports state 5 and
      the size of the image; it tries ABORT exactly when a session was opened and the last state is not
      5, 6 or 8. */
  lemma OutcomeMeans(file: Bytes, first: Message, start: uint64, turns: seq<Turn>, abortAnswer: Answer,
                     t: Trace, rc: int, ended: bool)
    requires t.begins != [] && Outcome(file, first, start, turns, abortAnswer, t, rc, ended)
    ensures var begin, last := t.begins[|t.begins| - 1], BeforeAbort(t);
            && (rc == 0 <==> ended && OpensSession(file, begin) && Completes(file, last))
            && (EndsInAbort(t) <==> ended && OpensSession(file, begin) &&
                                    last.rsp.state != 5 && last.rsp.state != 6 && last.rsp.state != 8)
  {
    RunMeans(file, t);
  }

  /** And it is over exactly when no BEGIN can follow and, if a session was opened, that is over too. */
  lemma EndsIff(file: Bytes, first: Message, start: uint64, turns: seq<Turn>, abortAnswer: Answer,
                t: Trace, rc: int, ended: bool)
    requires t.begins != [] && Outcome(file, first, start, turns, abortAnswer, t, rc, ended)
    ensures var n := |t.begins|;
            && n <= |turns|
            && (ended <==> BeginStops(start, t.begins[n - 1], turns[n - 1]) &&
                           (OpensSession(file, t.begins[n - 1]) ==>
                              var body := if EndsInAbort(t) then t.body[..|t.body| - 1] else t.body;
                              SessionOver(file, Trace(t.begins, body), turns[n..])))
  {
    RunMeans(file, t);
  }

  predicate EndsInAbort(t: Trace) { |t.body| > 0 && t.body[|t.body| - 1].m.action == Abort }

  /** The last call that is no ABORT. */
  function BeforeAbort(t: Trace): Call
    requires t.begins != []
  {
    var calls := t.begins + if EndsInAbort(t) then t.body[..|t.body| - 1] else t.body;
    calls[|calls| - 1]
  }

  predicate OpensSession(file: Bytes, c: Call) {
    c.rc == 0 && c.rsp.session != 0 && c.rsp.state == 1 && c.rsp.total == |file| % 0x1_0000_0000
  }

  predicate Completes(file: Bytes, c: Call) {
    && c.rc == 0 && (c.m.action == Data ==> c.rsp.acceptedSequence == c.m.sequence)
    && c.rsp.state == 5 && c.rsp.total == |file| % 0x1_0000_0000 && c.rsp.received <= c.rsp.total
  }

  lemma RunMeans(file: Bytes, t: Trace)
    requires t.begins != []
    ensures Succeeded(file, t) <==> OpensSession(file, t.begins[|t.begins| - 1]) && Completes(file, BeforeAbort(t))
    ensures AbortTried(t) <==> EndsInAbort(t)
    ensures Opened(file, t.begins) <==> OpensSession(file, t.begins[|t.begins| - 1])
    ensures LastCall(t) == BeforeAbort(t)
    ensures Terminal(LastCall(t).rsp.state) <==> BeforeAbort(t).rsp.state in {5, 6, 8}
  {
  }

  /** The run hears the environment in order: one turn a call, with the clock reading of the turn before
      for a repeated BEGIN and of the same turn for a QUERY, and the last word for the ABORT. Unless it
      is over it hears every turn. */
  lemma HearsInOrder(file: Bytes, first: Message, start: uint64, turns: seq<Turn>, abortAnswer: Answer,
                     t: Trace, rc: int, ended: bool, k: nat)
    requires t.begins != [] && Outcome(file, first, start, turns, abortAnswer, t, rc, ended)
    ensures var n, last := |t.begins|, |t.body| - 1;
            && (k < n ==> k < |turns| && AnsweredBy(t.begins[k], turns[k].answer))
            && (0 < k < n && t.begins[k].pause.Pause? ==> turns[k - 1].clock == Some(t.begins[k].pause.reading))
            && (k < |t.body| && !(k == last && EndsInAbort(t)) ==>
                  && n + k < |turns| && AnsweredBy(t.body[k], turns[n + k].answer)
                  && (t.body[k].pause.Pause? ==> turns[n + k].clock == Some(t.body[k].pause.reading)))
            && (EndsInAbort(t) ==> AnsweredBy(t.body[last], abortAnswer))
            && (!ended ==> n + |t.body| == |turns|)
  {
    BeginsHear(t.begins, turns, k);
    BodyHears(t, turns, k);
  }

  lemma BeginsHear(begins: seq<Call>, turns: seq<Turn>, k: nat)
    requires BeginsHeard(begins, turns)
    ensures k < |begins| ==> k < |turns| && AnsweredBy(begins[k], turns[k].answer)
    ensures 0 < k < |begins| && begins[k].pause.Pause? ==> turns[k - 1].clock == Some(begins[k].pause.reading)
  {
    if k < |begins| { assert BeginHeard(begins, turns, k); }
  }

  lemma BodyHears(t: Trace, turns: seq<Turn>, k: nat)
    requires |t.begins| <= |turns| && BodyHeard(Worked(t).body, turns[|t.begins|..])
    ensures k < |t.body| && !(k == |t.body| - 1 && EndsInAbort(t)) ==>
              && |t.begins| + k < |turns| && AnsweredBy(t.body[k], turns[|t.begins| + k].answer)
              && (t.body[k].pause.Pause? ==> turns[|t.begins| + k].clock == Some(t.body[k].pause.reading))
  {
    var body, rest := Worked(t).body, turns[|t.begins|..];
    if k < |body| {
      assert Heard(body[k], rest[k]);
      assert body[k] == t.body[k] && rest[k] == turns[|t.begins| + k];
    }
  }

  /** A session is over exactly when the last response is refused, or about another image, or in a state
      that asks for nothing; or when a wait has lasted 300 seconds or has no clock; or when the data asked
      for was the last sent, is no chunk of the image, or cannot be read. */
  lemma SessionOverIff(file: Bytes, t: Trace, turns: seq<Turn>)
    requires t.begins != []
    ensures var n := |t.body|; var p := Prior(t, n); var r := p.rsp;
            SessionOver(file, t, turns) <==>
              || p.rc != 0 || (p.m.action == Data && r.acceptedSequence != p.m.sequence)
              || r.total != |file| % 0x1_0000_0000 || r.received > r.total
              || (r.state != 1 && r.state != 2 && r.state != 3 && r.state != 4 && r.state != 7)
              || (n < |turns| && (r.state == 2 || r.state == 3 || r.state == 7) &&
                  (turns[n].clock.None? ||
                   (n > 0 && t.body[n - 1].pause.Pause? && Prior(t, n - 1).rsp.state == r.state &&
                    (turns[n].clock.value - t.body[n - 1].pause.since) % 0x1_0000_0000_0000_0000 >= 300000)))
              || (n < |turns| && r.state == 1 &&
                  (LastAnswered(t, n) == Some(Request(r.image, r.nextOffset, r.nextLength)) || r.nextLength == 0 ||
                   r.nextLength > 2016 || r.nextOffset + r.nextLength > |file| % 0x1_0000_0000 || !turns[n].readOk))
  {
    var n := |t.body|;
    if n < |turns| && turns[n].clock.Some? && n > 0 && t.body[n - 1].pause.Pause? {
      ElapsedIs(turns[n].clock.value, t.body[n - 1].pause.since);
    }
  }

  /** No BEGIN follows exactly when the last one was not refused as busy, or 35 seconds are over. */
  lemma BeginStopsIff(start: uint64, c: Call, turn: Turn)
    ensures BeginStops(start, c, turn) <==>
              c.rc != 2 || turn.clock.None? || (turn.clock.value - start) % 0x1_0000_0000_0000_0000 >= 35000
  {
    if turn.clock.Some? { ElapsedIs(turn.clock.value, start); }
  }

  /** Before the first DATA nothing counts as answered. */
  lemma {:induction false} NothingAnswered(t: Trace, k: nat)
    requires t.begins != [] && k <= |t.body| && forall i :: 0 <= i < k ==> !IsData(t.body[i])
    ensures LastAnswered(t, k) == None
  {
    if k > 0 { NothingAnswered(t, k - 1); }
  }

  // ---------------------------------------------------------------- what the device stores

  predicate Within(o: nat, offset: nat, length: nat) { offset <= o < offset + length }

  function Written(offset: nat, payload: Bytes): map<nat, byte> {
    map o: nat | o < offset + |payload| && Within(o, offset, |payload|) :: payload[o - offset]
  }

  /** The image a device assembles that stores every DATA it receives at its package offset. */
  function Store(body: seq<Call>, k: nat): map<nat, byte>
    requires k <= |body|
  {
    if k == 0 then map[]
    else
      var c := body[k - 1];
      if IsData(c) && |c.io| == 3 then Store(body, k - 1) + Written(c.m.offset, c.m.payload)
      else Store(body, k - 1)
  }

  /** Every DATA carries the opened session, 1 to 2016 bytes, a range of the file and exactly the
      file's bytes there. */
  lemma DataIsFile(file: Bytes, first: Message, start: uint64, t: Trace, k: nat)
    requires ValidTrace(file, first, start, t) && k < |t.body| && IsData(t.body[k])
    ensures var m := t.body[k].m;
            && m.session == Session(t) != 0
            && 1 <= |m.payload| <= 2016 && m.offset + |m.payload| <= |file|
            && m.payload == file[m.offset..m.offset + |m.payload|]
  {
    DataAt(file, first, start, t, k);
    DataBytes(file, MemoryAt(t, k), Prior(t, k).rsp, t.body[k]);
  }

  lemma DataAt(file: Bytes, first: Message, start: uint64, t: Trace, k: nat)
    requires ValidTrace(file, first, start, t) && k < |t.body| && IsData(t.body[k])
    ensures Session(t) != 0 && DataFollows(file, MemoryAt(t, k), Prior(t, k).rsp, t.body[k])
  {
    assert CallOk(file, t, k);
  }

  lemma DataBytes(file: Bytes, h: Memory, r: Reply, c: Call)
    requires DataFollows(file, h, r, c)
    ensures var m := c.m;
            && m.session == h.session && 1 <= |m.payload| <= 2016 && m.offset + |m.payload| <= |file|
            && m.payload == file[m.offset..m.offset + |m.payload|]
  {
  }

  /** So no byte the device stores differs from the file. */
  lemma {:induction false} StoredBytesAreTheFile(file: Bytes, first: Message, start: uint64, t: Trace, k: nat)
    requires ValidTrace(file, first, start, t) && k <= |t.body|
    ensures PartOf(Store(t.body, k), file)
  {
    if k > 0 {
      StoredBytesAreTheFile(file, first, start, t, k - 1);
      DataFits(file, first, start, t, k - 1);
      StoreStep(file, t.body, k - 1);
    }
  }

  predicate Fits(file: Bytes, m: Message) {
    m.offset + |m.payload| <= |file| && m.payload == file[m.offset..m.offset + |m.payload|]
  }

  lemma DataFits(file: Bytes, first: Message, start: uint64, t: Trace, k: nat)
    requires ValidTrace(file, first, start, t) && k < |t.body|
    ensures IsData(t.body[k]) ==> Fits(file, t.body[k].m)
  {
    if IsData(t.body[k]) { DataIsFile(file, first, start, t, k); }
  }

  lemma {:induction false} StoreStep(file: Bytes, body: seq<Call>, k: nat)
    requires k < |body| && PartOf(Store(body, k), file) && (IsData(body[k]) ==> Fits(file, body[k].m))
    ensures PartOf(Store(body, k + 1), file)
  {
    if IsData(body[k]) { WritesPart(Store(body, k), file, body[k].m.offset, body[k].m.payload); }
  }

  /** Every byte stored is the file's. */
  ghost predicate PartOf(store: map<nat, byte>, file: Bytes) {
    forall o :: o in store ==> o < |file| && store[o] == file[o]
  }

  lemma WritesPart(store: map<nat, byte>, file: Bytes, offset: nat, payload: Bytes)
    requires PartOf(store, file) && offset + |payload| <= |file| && payload == file[offset..offset + |payload|]
    ensures PartOf(store + Written(offset, payload), file)
  {
  }

  predicate Covers(c: Call, o: nat) {
    IsData(c) && |c.io| == 3 && Within(o, c.m.offset, |c.m.payload|)
  }

  ghost predicate Covered(body: seq<Call>, o: nat) { exists i :: 0 <= i < |body| && Covers(body[i], o) }

  lemma {:induction false} CoveredIsStored(body: seq<Call>, k: nat, i: nat, o: nat)
    requires i < k <= |body| && Covers(body[i], o)
    ensures o in Store(body, k)
  {
    if i < k - 1 { CoveredIsStored(body, k - 1, i, o); }
  }

  /** And once the requests have covered the image, the device holds the whole file. */
  lemma CoveringLeavesTheFile(file: Bytes, first: Message, start: uint64, t: Trace)
    requires ValidTrace(file, first, start, t)
    requires forall o: nat :: o < |file| ==> Covered(t.body, o)
    ensures var store := Store(t.body, |t.body|);
            (forall o: nat :: o in store <==> o < |file|) && forall o :: o in store ==> store[o] == file[o]
  {
    StoredBytesAreTheFile(file, first, start, t, |t.body|);
    forall o: nat | o < |file| ensures o in Store(t.body, |t.body|) {
      assert Covered(t.body, o);
      var i :| 0 <= i < |t.body| && Covers(t.body[i], o);
      CoveredIsStored(t.body, |t.body|, i, o);
    }
  }

  // ---------------------------------------------------------------- progress

  lemma {:induction false} AnsweredStays(t: Trace, i: nat, j: nat)
    requires t.begins != [] && i < j <= |t.body| && IsData(t.body[i])
    requires forall k :: i < k < j ==> !IsData(t.body[k])
    ensures LastAnswered(t, j) == Some(Asked(Prior(t, i).rsp))
  {
    if i < j - 1 { AnsweredStays(t, i, j - 1); }
  }

  /** Successive DATA messages never answer the same request. */
  lemma SuccessiveDataDiffer(file: Bytes, first: Message, start: uint64, t: Trace, i: nat, j: nat)
    requires ValidTrace(file, first, start, t) && i < j < |t.body| && IsData(t.body[i]) && IsData(t.body[j])
    requires forall k :: i < k < j ==> !IsData(t.body[k])
    ensures Asked(Prior(t, i).rsp) != Asked(Prior(t, j).rsp)
  {
    AnsweredStays(t, i, j);
    assert CallOk(file, t, j);
  }

  /** Back-to-back DATA sequence numbers rise by one modulo 2^32. */
  lemma SequenceRises(file: Bytes, first: Message, start: uint64, t: Trace, k: nat)
    requires ValidTrace(file, first, start, t) && k + 1 < |t.body| && IsData(t.body[k]) && IsData(t.body[k + 1])
    ensures t.body[k + 1].m.sequence == Next32(t.body[k].m.sequence)
  {
    assert CallOk(file, t, k + 1);
  }

  /** Success takes at least one accepted DATA. */
  lemma SuccessTakesData(file: Bytes, first: Message, start: uint64, t: Trace)
    requires ValidTrace(file, first, start, t) && Succeeded(file, t)
    ensures t.body != [] && IsData(t.body[0]) && Accepted(t.body[0])
  {
    assert CallOk(file, t, 0);
    if |t.body| > 1 { assert CallOk(file, t, 1); }
    if |t.body| > 2 { AbortIsLast(file, first, start, t, 1); }
  }

  /** No call follows an ABORT. */
  lemma AbortIsLast(file: Bytes, first: Message, start: uint64, t: Trace, k: nat)
    requires ValidTrace(file, first, start, t) && k + 1 < |t.body|
    ensures t.body[k].m.action != Abort
  {
    assert CallOk(file, t, k + 1);
  }

  // ---------------------------------------------------------------- time bounds

  /** A clock that never falls behind the sleeps: between consecutive waits it advances at least by
      the time slept. */
  predicate SleepsLast(calls: seq<Call>) {
    forall k :: 0 < k < |calls| ==>
      calls[k - 1].pause.Pause? && calls[k].pause.Pause? ==>
        calls[k].pause.reading >= calls[k - 1].pause.reading + calls[k - 1].pause.slept
  }

  lemma {:induction false} BeginReading(first: Message, start: uint64, begins: seq<Call>, k: nat)
    requires BeginsOk(first, start, begins) && SleepsLast(begins) && 1 <= k < |begins|
    requires begins[1].pause.Pause? ==> begins[1].pause.reading >= start
    ensures begins[k].pause.Pause? && begins[k].pause.reading >= start + 1000 * (k - 1)
  {
    assert BeginFollows(first, start, begins, k);
    if k > 1 { BeginReading(first, start, begins, k - 1); }
  }

  /** At most 36 BEGINs, if sleeps last as long as requested. */
  lemma AtMost36Begins(file: Bytes, first: Message, start: uint64, t: Trace)
    requires ValidTrace(file, first, start, t) && SleepsLast(t.begins)
    requires |t.begins| > 1 && t.begins[1].pause.Pause? ==> t.begins[1].pause.reading >= start
    ensures |t.begins| <= 36
  {
    var k := |t.begins| - 1;
    if k >= 1 {
      BeginReading(first, start, t.begins, k);
      assert BeginFollows(first, start, t.begins, k);
    }
  }

  /** Calls `i` to `j` are QUERYs that all answer the same busy state. */
  predicate BusyStretch(t: Trace, i: nat, j: nat, state: uint32)
    requires t.begins != [] && i <= j < |t.body|
  {
    forall k :: i <= k <= j ==> t.body[k].m.action == Query && Prior(t, k).rsp.state == state
  }

  lemma QueryAt(file: Bytes, first: Message, start: uint64, t: Trace, k: nat)
    requires ValidTrace(file, first, start, t) && k < |t.body| && t.body[k].m.action == Query
    ensures Busy(Prior(t, k).rsp.state) && QueryFollows(MemoryAt(t, k), Prior(t, k).rsp, t.body[k])
  {
    assert CallOk(file, t, k);
  }

  /** Two QUERYs in a row under one state: same start of the wait, and the clock has moved on. */
  lemma QueryAgain(file: Bytes, first: Message, start: uint64, t: Trace, k: nat)
    requires ValidTrace(file, first, start, t) && SleepsLast(t.body)
    requires 0 < k < |t.body| && BusyStretch(t, k - 1, k, Prior(t, k).rsp.state)
    ensures t.body[k - 1].pause.Pause? && t.body[k].pause.Pause?
    ensures t.body[k].pause.since == t.body[k - 1].pause.since
    ensures t.body[k].pause.reading > t.body[k - 1].pause.reading
    ensures Elapsed(t.body[k].pause.reading, t.body[k].pause.since) < OP_TIMEOUT_MS
  {
    assert t.body[k].m.action == Query && t.body[k - 1].m.action == Query;
    assert Prior(t, k - 1).rsp.state == Prior(t, k).rsp.state;
    QueryAt(file, first, start, t, k - 1);
    QueryAt(file, first, start, t, k);
  }

  predicate Ticks(c: Call, d: Call) {
    && c.pause.Pause? && d.pause.Pause?
    && d.pause.since == c.pause.since && d.pause.reading > c.pause.reading
  }

  lemma {:induction false} StretchClock(body: seq<Call>, i: nat, j: nat)
    requires i < j < |body| && forall k :: i < k <= j ==> Ticks(body[k - 1], body[k])
    ensures body[i].pause.Pause? && body[j].pause.Pause? && body[j].pause.since == body[i].pause.since
    ensures body[j].pause.reading >= body[i].pause.reading + (j - i)
    decreases j - i
  {
    assert Ticks(body[j - 1], body[j]);
    if i + 1 < j { StretchClock(body, i, j - 1); }
  }

  /** The call before waited under the same state, so the wait goes on. */
  predicate Continues(t: Trace, k: nat)
    requires t.begins != [] && k < |t.body|
  {
    k > 0 && t.body[k - 1].pause.Pause? && Prior(t, k - 1).rsp.state == Prior(t, k).rsp.state
  }

  lemma TwoInStretch(t: Trace, k: nat)
    requires t.begins != [] && 0 < k < |t.body|
    requires t.body[k - 1].m.action == Query && t.body[k].m.action == Query
    requires Prior(t, k - 1).rsp.state == Prior(t, k).rsp.state
    ensures BusyStretch(t, k - 1, k, Prior(t, k).rsp.state)
  {
  }

  lemma WaitStarts(file: Bytes, first: Message, start: uint64, t: Trace, k: nat)
    requires ValidTrace(file, first, start, t)
    requires k < |t.body| && t.body[k].m.action == Query && !Continues(t, k)
    ensures t.body[k].pause.Pause? && t.body[k].pause.since == t.body[k].pause.reading
  {
    QueryAt(file, first, start, t, k);
  }

  /** The wait never starts after the reading it is compared with. */
  lemma {:induction false} SinceNotAhead(file: Bytes, first: Message, start: uint64, t: Trace, k: nat)
    requires ValidTrace(file, first, start, t) && SleepsLast(t.body)
    requires k < |t.body| && t.body[k].m.action == Query
    ensures t.body[k].pause.Pause? && t.body[k].pause.since <= t.body[k].pause.reading
    decreases k
  {
    if Continues(t, k) {
      PausedIsQuery(file, first, start, t, k - 1);
      TwoInStretch(t, k);
      SinceNotAhead(file, first, start, t, k - 1);
      QueryAgain(file, first, start, t, k);
    } else {
      WaitStarts(file, first, start, t, k);
    }
  }

  lemma PausedIsQuery(file: Bytes, first: Message, start: uint64, t: Trace, k: nat)
    requires ValidTrace(file, first, start, t) && k < |t.body| && t.body[k].pause.Pause?
    ensures t.body[k].m.action == Query
  {
    assert CallOk(file, t, k);
  }

  lemma QueryInStretch(file: Bytes, first: Message, start: uint64, t: Trace, i: nat, j: nat, state: uint32, k: nat)
    requires ValidTrace(file, first, start, t) && SleepsLast(t.body)
    requires i < k <= j < |t.body| && BusyStretch(t, i, j, state)
    ensures Ticks(t.body[k - 1], t.body[k])
    ensures Elapsed(t.body[k].pause.reading, t.body[k].pause.since) < OP_TIMEOUT_MS
  {
    assert Prior(t, k).rsp.state == state;
    QueryAgain(file, first, start, t, k);
  }

  /** At most 300000 QUERYs in one unbroken stretch of the same busy state. */
  lemma AtMost300000Queries(file: Bytes, first: Message, start: uint64, t: Trace, i: nat, j: nat, state: uint32)
    requires ValidTrace(file, first, start, t) && SleepsLast(t.body)
    requires i <= j < |t.body| && BusyStretch(t, i, j, state)
    ensures j - i + 1 <= 300000
  {
    if i < j {
      forall k | i < k <= j ensures Ticks(t.body[k - 1], t.body[k]) { QueryInStretch(file, first, start, t, i, j, state, k); }
      StretchClock(t.body, i, j);
      assert t.body[i].m.action == Query;
      SinceNotAhead(file, first, start, t, i);
      QueryInStretch(file, first, start, t, i, j, state, j);
    }
  }
}
