/** Record lists in responses: Get Poison List, Get Scan Media Results and Media Operations discovery
    hand back as many records as the device claims and actually sent. */
module Records {
  import opened Wire
  import opened Cci
  import opened Mctp
  import Mock

  /** Where a response keeps its record count and its records, and how many are ever asked for. */
  datatype Layout = Layout(header: nat, countAt: nat, record: nat, max: nat)

  const POISON := Layout(32, 10, 16, 126)      // 2048-byte payloads
  const SCAN := Layout(32, 18, 16, 126)
  const DISCOVERY := Layout(12, 10, 2, 1018)

  predicate Known(l: Layout) { l == POISON || l == SCAN || l == DISCOVERY }

  /** The response buffer for at most `limit` records. */
  function BufferSize(l: Layout, limit: nat): nat
    requires Known(l)
  {
    12 + l.header + if l == DISCOVERY then 2 * limit else 16 * limit
  }

  /** The records wholly inside a payload of `pl` bytes. */
  function WholeRecords(l: Layout, pl: nat): nat
    requires Known(l)
  {
    if pl <= l.header then 0 else if l == DISCOVERY then (pl - l.header) / 2 else (pl - l.header) / 16
  }

  function Claimed(l: Layout, rsp: Bytes): nat
    requires Known(l) && |rsp| >= 12 + l.header
  {
    Get16(rsp, 12 + l.countAt)
  }

  function RecordAt(l: Layout, i: nat): nat
    requires Known(l)
  {
    12 + l.header + if l == DISCOVERY then 2 * i else 16 * i
  }

  /** min_t(uint16_t, a, b): both sides are cut to 16 bits first. */
  function Min16(a: nat, b: nat): nat { Min(a % 0x1_0000, b % 0x1_0000) }

  /** The records lie inside the received payload, and are its bytes. */
  ghost predicate CopiedFrom(l: Layout, rsp: Bytes, records: seq<Bytes>)
    requires Known(l) && IsMessage(rsp) && 12 + PayloadLength(rsp) <= |rsp|
  {
    forall i :: 0 <= i < |records| ==> CopiedAt(l, rsp, i, records[i])
  }

  ghost predicate CopiedAt(l: Layout, rsp: Bytes, i: nat, record: Bytes)
    requires Known(l) && IsMessage(rsp) && 12 + PayloadLength(rsp) <= |rsp|
  {
    && RecordAt(l, i) + l.record <= 12 + PayloadLength(rsp)
    && record == rsp[RecordAt(l, i)..RecordAt(l, i) + l.record]
  }

  /** So many records of `size` bytes are claimed, asked for and wholly there, behind a fixed part. */
  predicate Fit(n: nat, claimed: nat, limit: nat, bytes: nat, pl: nat, fixedPart: nat) {
    n <= claimed && n <= limit && (n == 0 || fixedPart + bytes <= pl)
  }

  /** What Get Poison List and Get Scan Media Results hand back: as many 16-byte records as fit, one behind
      the other from byte 44 on. */
  ghost predicate LongList(rsp: Bytes, claimed: nat, records: seq<Bytes>)
    requires IsMessage(rsp)
  {
    var n, pl := |records|, PayloadLength(rsp);
    && Fit(n, claimed, 126, 16 * n, pl, 32) && !Fit(n + 1, claimed, 126, 16 * (n + 1), pl, 32)
    && forall i :: 0 <= i < n ==> 60 + 16 * i <= 12 + pl <= |rsp| && records[i] == rsp[44 + 16 * i..60 + 16 * i]
  }

  /** What Media Operations discovery hands back: as many 2-byte records as fit, from byte 24 on. */
  ghost predicate ShortList(rsp: Bytes, claimed: nat, limit: nat, records: seq<Bytes>)
    requires IsMessage(rsp)
  {
    var n, pl := |records|, PayloadLength(rsp);
    && Fit(n, claimed, limit, 2 * n, pl, 12) && !Fit(n + 1, claimed, limit, 2 * (n + 1), pl, 12)
    && forall i :: 0 <= i < n ==> 26 + 2 * i <= 12 + pl <= |rsp| && records[i] == rsp[24 + 2 * i..26 + 2 * i]
  }

  function Word(b: Bytes, at: nat): nat
    requires at + 2 <= |b|
  {
    b[at] as int + 256 * (b[at + 1] as int)
  }

  /** The list of one of the three commands; each states its count in a place of its own. */
  ghost predicate HandedBack(l: Layout, limit: nat, rsp: Bytes, records: seq<Bytes>)
    requires |rsp| >= 24
  {
    if l == POISON then LongList(rsp, Word(rsp, 22), records)
    else if l == SCAN then |rsp| >= 32 && LongList(rsp, Word(rsp, 30), records)
    else ShortList(rsp, Word(rsp, 22), limit, records)
  }

  lemma CopiesHandBack(l: Layout, limit: nat, rsp: Bytes, records: seq<Bytes>)
    requires Known(l) && LimitOk(l, limit) && |rsp| >= 12 + l.header && 12 + PayloadLength(rsp) <= |rsp|
    requires |records| == Min(Claimed(l, rsp), Min(WholeRecords(l, PayloadLength(rsp)), limit))
    requires CopiedFrom(l, rsp, records)
    ensures HandedBack(l, limit, rsp, records)
  {
    WholeMost(l, PayloadLength(rsp));
    forall i | 0 <= i < |records| ensures CopiedAt(l, rsp, i, records[i]) {
    }
  }

  /** No further record is whole. */
  lemma WholeMost(l: Layout, pl: nat)
    requires Known(l)
    ensures var n := WholeRecords(l, pl);
            if l == DISCOVERY then (n == 0 || 12 + 2 * n <= pl) && 12 + 2 * (n + 1) > pl
            else (n == 0 || 32 + 16 * n <= pl) && 32 + 16 * (n + 1) > pl
  {
  }

  /** A limit other than the maximum is a discovery parameter. */
  predicate LimitOk(l: Layout, limit: nat) { limit <= l.max && (l != DISCOVERY ==> limit == l.max) }

  /** The count that is handed back, clamped step by step in 16 bits. */
  method ClampCount(l: Layout, limit: nat, rsp: Bytes) returns (count: nat)
    requires Known(l) && LimitOk(l, limit) && |rsp| == BufferSize(l, limit)
    requires 12 + PayloadLength(rsp) <= |rsp|
    ensures count == Min(Claimed(l, rsp), Min(WholeRecords(l, PayloadLength(rsp)), limit))
  {
    count := Get16(rsp, 12 + l.countAt);
    var inRsp := 0;
    var pl := PayloadLength(rsp);
    if pl != 0 {
      if pl > l.header { inRsp := WholeRecords(l, pl); }
    }
    WholeBound(l, limit, pl);
    NoLoss(count, inRsp);
    count := Min16(count, inRsp);
    NoLoss(count, limit);
    if l == DISCOVERY { count := Min16(count, limit); }
    NoLoss(count, l.max);
    count := Min16(count, l.max);
  }

  /** The buffer bounds the records received, far below 16 bits. */
  lemma WholeBound(l: Layout, limit: nat, pl: nat)
    requires Known(l) && LimitOk(l, limit) && 12 + pl <= BufferSize(l, limit)
    ensures WholeRecords(l, pl) <= limit <= l.max <= 1018
  {
  }

  /** Values below 2^16 survive the casts. */
  lemma NoLoss(a: nat, b: nat)
    requires a < 0x1_0000 && b < 0x1_0000
    ensures Min16(a, b) == Min(a, b)
  {
  }

  /** And no others do. */
  lemma LossFrom(a: nat)
    ensures Min16(a, a) == a <==> a < 0x1_0000
  {
  }

  /** The buffer holds the fixed part and the records asked for; the most that are asked for are the most
      that fit a mailbox payload of 2048 bytes. */
  lemma BufferSizes(limit: nat)
    ensures BufferSize(POISON, limit) == BufferSize(SCAN, limit) == 44 + 16 * limit && BufferSize(DISCOVERY, limit) == 24 + 2 * limit
    ensures limit <= POISON.max <==> 32 + 16 * limit <= 2048
    ensures limit <= SCAN.max <==> 32 + 16 * limit <= 2048
    ensures limit <= DISCOVERY.max <==> 12 + 2 * limit <= 2048
  {
  }

  /** The shared tail of the three commands, after a successful send into a buffer for `limit` records:
      the count and the records that are copied out. */
  method ReadRecords(l: Layout, limit: nat, rsp: Bytes) returns (count: nat, records: seq<Bytes>)
    requires Known(l) && LimitOk(l, limit) && |rsp| == BufferSize(l, limit)
    requires 12 + PayloadLength(rsp) <= |rsp|
    ensures count == Min(Claimed(l, rsp), Min(WholeRecords(l, PayloadLength(rsp)), limit)) == |records|
    ensures CopiedFrom(l, rsp, records)
    ensures HandedBack(l, limit, rsp, records)
  {
    count := ClampCount(l, limit, rsp);
    records := [];
    for i := 0 to count
      invariant |records| == i && CopiedFrom(l, rsp, records)
    {
      RecordInside(l, PayloadLength(rsp), i);
      var at := RecordAt(l, i);
      records := records + [rsp[at..at + l.record]];
    }
    CopiesHandBack(l, limit, rsp, records);
  }

  lemma RecordInside(l: Layout, pl: nat, i: nat)
    requires Known(l) && i < WholeRecords(l, pl)
    ensures RecordAt(l, i) + l.record <= 12 + pl
  {
  }

  // ---------------------------------------------------------------- where the buffer comes from

  /** A response that came through any number of tunnels fits the buffer with its stated payload. */
  lemma {:induction false} UnwoundFits(n: nat, sent: Bytes, buf: Bytes, len: nat, sz: nat, szMin: nat)
    requires |sent| >= 16 * n + HEADER && |buf| == 16 * n + sz && sz >= HEADER && len <= 16 * n + sz
    requires Unwind(n, sent, buf, len, sz, szMin).Done?
    ensures szMin <= HEADER + PayloadLength(Unwind(n, sent, buf, len, sz, szMin).rsp) <= sz
    decreases n
  {
    if n > 0 { UnwoundFits(n - 1, sent[LEVEL..], buf[LEVEL..], len - LEVEL, sz, szMin); }
  }

  lemma DeliveredFits(n: nat, sent: Bytes, got: Recv, sz: nat, szMin: nat)
    requires |sent| >= 16 * n + HEADER && sz >= HEADER && Deliver(n, sent, got, sz, szMin).Done?
    ensures szMin <= HEADER + PayloadLength(Deliver(n, sent, got, sz, szMin).rsp) <= sz
  {
    var (buf, len) := Received(got, 16 * n + sz);
    UnwoundFits(n, sent, buf, len, sz, szMin);
  }

  /** So does a mock's, whose payload is cut to the buffer. */
  lemma MockedFits(req: Bytes, r: Mock.Response, sz: nat)
    requires IsMessage(req) && HEADER <= sz < 0x10_0000
    ensures HEADER + PayloadLength(Mock.Reply(req, r, sz)) <= sz
    ensures PayloadLength(Mock.Reply(req, r, sz)) == Min(|r.payload|, sz - HEADER)
  {
    Mock.ReplyLength(req, r, sz);
  }

  /** Over MCTP, directly or through tunnels: the count is the smallest of the device's claim, the whole
      records received and the limit asked for, and every record copied out lies in the received payload.
      Discovery refuses a limit over 1018 before anything is sent. */
  method RecordsOverMctp(l: Layout, limit: nat, n: nat, sent: Bytes, got: Recv) returns (ok: bool, count: nat, records: seq<Bytes>)
    requires Known(l) && (l != DISCOVERY ==> limit == l.max) && |sent| >= 16 * n + HEADER
    ensures l == DISCOVERY && limit > 1018 ==> !ok
    ensures l != DISCOVERY || limit <= 1018 ==>
            var r := Deliver(n, sent, got, BufferSize(l, limit), 12 + l.header);
            && ok == r.Done?
            && (ok ==>
                  && 12 + l.header <= 12 + PayloadLength(r.rsp) <= BufferSize(l, limit)
                  && count == Min(Claimed(l, r.rsp), Min(WholeRecords(l, PayloadLength(r.rsp)), limit)) == |records|
                  && CopiedFrom(l, r.rsp, records)
                  && HandedBack(l, limit, r.rsp, records))
  {
    if limit > l.max { return false, 0, []; }
    var sz := BufferSize(l, limit);
    var r := Deliver(n, sent, got, sz, 12 + l.header);
    if r.Fail? { return false, 0, []; }
    DeliveredFits(n, sent, got, sz, 12 + l.header);
    count, records := ReadRecords(l, limit, r.rsp);
    ok := true;
  }

  /** Over the mock, which cuts the payload to the buffer and has no minimum: the same of what it hands
      back, a payload shorter than the fixed part included. */
  method RecordsOverMock(l: Layout, limit: nat, req: Bytes, r: Mock.Response) returns (count: nat, records: seq<Bytes>)
    requires Known(l) && LimitOk(l, limit) && IsMessage(req)
    ensures var sz := BufferSize(l, limit); var rsp := Mock.Reply(req, r, sz); var pl := Min(|r.payload|, sz - 12);
            && count == Min(Claimed(l, rsp), Min(WholeRecords(l, pl), limit)) == |records|
            && PayloadLength(rsp) == pl && 12 + pl <= sz && CopiedFrom(l, rsp, records)
            && HandedBack(l, limit, rsp, records)
  {
    var sz := BufferSize(l, limit);
    MockedFits(req, r, sz);
    count, records := ReadRecords(l, limit, Mock.Reply(req, r, sz));
  }
}
