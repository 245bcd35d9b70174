/** LD allocations: dumping a Get response and turning a dump or a hand-written list into the payload
    of a Set request. Both payloads are a 4-byte header and 16-byte entries. */
module LdAlloc {
  import opened Wire

  /** Overrides from the command line. */
  datatype Params = Params(numberLd: Option<byte>, startLdId: Option<byte>)

  const NO_OVERRIDES := Params(None, None)

  datatype Allocation = Allocation(range1: nat, range2: nat)

  datatype GetRsp = GetRsp(numberLd: byte, granularity: byte, startLdId: byte, list: seq<Allocation>)

  ghost predicate RspOk(r: GetRsp) {
    |r.list| < 256 && forall i :: 0 <= i < |r.list| ==> AllocationOk(r.list[i])
  }

  function EntryBytes(a: Allocation): (b: Bytes)
    ensures |b| == 16
  {
    Le(a.range1, 8) + Le(a.range2, 8)
  }

  function Entries(list: seq<Allocation>): (b: Bytes)
    ensures |b| == 16 * |list|
  {
    if list == [] then [] else Entries(list[..|list| - 1]) + EntryBytes(list[|list| - 1])
  }

  ghost predicate AllocationOk(a: Allocation) { a.range1 < Pow256(8) && a.range2 < Pow256(8) }

  lemma EntryReads(a: Allocation)
    requires AllocationOk(a)
    ensures FromLe(EntryBytes(a), 0, 8) == a.range1 && FromLe(EntryBytes(a), 8, 8) == a.range2
  {
    var b := EntryBytes(a);
    assert b[0..8] == Le(a.range1, 8) && b[8..16] == Le(a.range2, 8);
    FromLeOfLe(a.range1, 8);
    FromLeOfLe(a.range2, 8);
    FromLeShift(b, 0, 8, 0, 8);
    FromLeShift(b, 8, 16, 0, 8);
  }

  /** The `i`-th entry stands at its place. */
  lemma {:induction false} EntryAt(list: seq<Allocation>, i: nat)
    requires i < |list|
    ensures Entries(list)[16 * i..16 * i + 16] == EntryBytes(list[i])
  {
    var n := |list| - 1;
    var front, last := Entries(list[..n]), EntryBytes(list[n]);
    if i == n {
      assert (front + last)[16 * n..16 * n + 16] == last;
    } else {
      EntryAt(list[..n], i);
      assert (front + last)[16 * i..16 * i + 16] == front[16 * i..16 * i + 16];
    }
  }

  /** Each allocation reads back from its place: the first range in eight bytes, the second behind it. */
  lemma EntriesRead(list: seq<Allocation>, i: nat)
    requires i < |list| && AllocationOk(list[i])
    ensures FromLe(Entries(list), 16 * i, 8) == list[i].range1 && FromLe(Entries(list), 16 * i + 8, 8) == list[i].range2
  {
    EntryAt(list, i);
    EntryReads(list[i]);
    FromLeShift(Entries(list), 16 * i, 16 * i + 16, 0, 8);
    FromLeShift(Entries(list), 16 * i, 16 * i + 16, 8, 8);
  }

  // ---------------------------------------------------------------- dumping

  /** fm_ld_alloc_build_get_rsp_payload: an empty list or a short buffer is refused. */
  method BuildGetRspPayload(r: GetRsp, buf: array<byte>) returns (rc: int, outLen: nat)
    requires RspOk(r)
    modifies buf
    ensures rc == 0 <==> r.list != [] && buf.Length >= 4 + 16 * |r.list|
    ensures rc != 0 ==> rc == -1 && buf[..] == old(buf[..])
    ensures rc == 0 ==>
      && outLen == 4 + 16 * |r.list|
      && buf[..outLen] == [r.numberLd, r.granularity, r.startLdId, |r.list|] + Entries(r.list)
      && buf[outLen..] == old(buf[outLen..])
  {
    if |r.list| == 0 { return -1, 0; }
    var need := 4 + 16 * |r.list|;
    if buf.Length < need { return -1, 0; }
    buf[0], buf[1], buf[2], buf[3] := r.numberLd, r.granularity, r.startLdId, |r.list|;
    PutEntries(r.list, buf);
    return 0, need;
  }

  method PutEntries(list: seq<Allocation>, buf: array<byte>)
    requires buf.Length >= 4 + 16 * |list|
    modifies buf
    ensures buf[..4 + 16 * |list|] == old(buf[..4]) + Entries(list)
    ensures buf[4 + 16 * |list|..] == old(buf[4 + 16 * |list|..])
  {
    for i := 0 to |list|
      invariant buf[..4 + 16 * i] == old(buf[..4]) + Entries(list[..i])
      invariant forall k :: 4 + 16 * i <= k < buf.Length ==> buf[k] == old(buf[k])
    {
      ghost var was := buf[..];
      PutEntry(buf, 4 + 16 * i, list[i]);
      EntriesNext(list, i);
      assert forall k :: 4 + 16 * (i + 1) <= k < buf.Length ==> buf[k] == was[k];
    }
    assert list[..|list|] == list;
  }

  method PutEntry(buf: array<byte>, off: nat, a: Allocation)
    requires off + 16 <= buf.Length
    modifies buf
    ensures buf[..off + 16] == old(buf[..off]) + EntryBytes(a)
    ensures forall k :: off + 16 <= k < buf.Length ==> buf[k] == old(buf[k])
  {
    var e := EntryBytes(a);
    forall k | 0 <= k < 16 { buf[off + k] := e[k]; }
  }

  lemma EntriesNext(list: seq<Allocation>, i: nat)
    requires i < |list|
    ensures Entries(list[..i + 1]) == Entries(list[..i]) + EntryBytes(list[i])
  {
    assert list[..i + 1][..i] == list[..i];
  }

  // ---------------------------------------------------------------- normalising

  /** What normalising makes of a payload, and whether it succeeds. A failed call may have changed it. */
  function Normalize(p: Bytes, o: Params): (r: (bool, Bytes))
    ensures |r.1| == |p|
  {
    if |p| < 4 || (|p| - 4) % 16 != 0 then (false, p)
    else
      var n := (|p| - 4) / 16;
      if p[3] == n then
        var number := if o.numberLd.Some? then o.numberLd.value else p[3];
        var start := if o.startLdId.Some? then o.startLdId.value else p[2];
        (4 + 16 * (number as int) == |p|, [number, start, 0, 0] + p[4..])
      else if p[0] == n then
        var number := if o.numberLd.Some? then o.numberLd.value else p[0];
        var start := if o.startLdId.Some? then o.startLdId.value else p[1];
        (4 + 16 * (number as int) == |p|, [number, start] + p[2..])
      else (false, p)
  }

  method NormalizeSetPayload(payload: array<byte>, o: Params) returns (rc: int, numberLd: byte)
    modifies payload
    ensures (rc == 0, payload[..]) == Normalize(old(payload[..]), o)
    ensures rc == 0 || rc == -1
    ensures rc == 0 ==> payload.Length >= 4 && numberLd == payload[0]
  {
    rc, numberLd := -1, 0;
    if payload.Length < 4 || (payload.Length - 4) % 16 != 0 { return; }
    var count := (payload.Length - 4) / 16;
    ghost var was := payload[..];
    if payload[3] == count && payload.Length == 4 + 16 * (count % 256) {
      var setBuf := new byte[4 + 255 * 16];
      setBuf[0] := if o.numberLd.Some? then o.numberLd.value else payload[3];
      setBuf[1] := if o.startLdId.Some? then o.startLdId.value else payload[2];
      setBuf[2], setBuf[3] := 0, 0;
      forall k | 4 <= k < payload.Length { setBuf[k] := payload[k]; }
      forall k | 0 <= k < payload.Length { payload[k] := setBuf[k]; }
      assert payload[..] == Normalize(was, o).1;
    } else if payload[0] == count && payload.Length == 4 + 16 * (count % 256) {
      if o.startLdId.Some? { payload[1] := o.startLdId.value; }
      if o.numberLd.Some? { payload[0] := o.numberLd.value; }
      assert payload[..] == Normalize(was, o).1;
    } else {
      return;
    }
    numberLd := payload[0];
    if 4 + 16 * (numberLd as int) != payload.Length { return; }
    rc := 0;
  }

  // ---------------------------------------------------------------- what normalising guarantees

  /** Exactly which inputs are accepted, and every byte of the result. */
  lemma NormalizeExact(p: Bytes, o: Params)
    ensures var (ok, q) := Normalize(p, o); var n := (|p| - 4) / 16;
            && (ok <==> |p| >= 4 && (|p| - 4) % 16 == 0 && (p[3] == n || p[0] == n) && (o.numberLd.Some? ==> o.numberLd.value == n))
            && (ok ==>
                  && q[0] == n && q[4..] == p[4..]
                  && q[1] == (if o.startLdId.Some? then o.startLdId.value else if p[3] == n then p[2] else p[1])
                  && q[2..4] == if p[3] == n then [0, 0] else p[2..4])
  {
    var q := Normalize(p, o).1;
    if |p| >= 4 && (|p| - 4) % 16 == 0 {
      var n := (|p| - 4) / 16;
      if p[3] == n {
        assert q[4..] == p[4..] && q[2..4] == [0, 0];
      } else if p[0] == n {
        assert q[2..] == p[2..];
        assert q[4..] == q[2..][2..] && q[2..4] == q[2..][..2];
      }
    }
  }

  /** A dump normalises, without overrides, to a Set request with the same start id, allocation bytes
      and list length. */
  lemma DumpNormalizes(r: GetRsp)
    requires RspOk(r) && r.list != []
    ensures Normalize([r.numberLd, r.granularity, r.startLdId, |r.list|] + Entries(r.list), NO_OVERRIDES)
         == (true, [|r.list|, r.startLdId, 0, 0] + Entries(r.list))
  {
    var p := [r.numberLd, r.granularity, r.startLdId, |r.list|] + Entries(r.list);
    assert p[4..] == Entries(r.list);
  }

  /** Normalising a result again without overrides changes nothing, except for an empty list whose
      start id is not zero and whose reserved byte is: exactly that one loses its start id. */
  lemma NormalizeAgain(p: Bytes, o: Params)
    requires Normalize(p, o).0
    ensures var q := Normalize(p, o).1;
            Normalize(q, NO_OVERRIDES) == (true, q) <==> !(|q| == 4 && q[3] == 0 && q[1] != 0)
  {
    NormalizeExact(p, o);
    var q := Normalize(p, o).1;
    var n := (|p| - 4) / 16;
    var q' := Normalize(q, NO_OVERRIDES).1;
    assert q[3] == q[2..4][1];
    if q[3] == n {
      assert p[3] == n && n == 0;
      assert q'[1] == q[2] && q[2] == q[2..4][0];
      assert q[1] == 0 ==> q' == q;
    } else {
      assert q' == q;
    }
  }

  /** So normalising a dump twice is normalising it once. */
  lemma DumpNormalizesOnce(r: GetRsp)
    requires RspOk(r) && r.list != []
    ensures var q := [|r.list|, r.startLdId, 0, 0] + Entries(r.list); Normalize(q, NO_OVERRIDES) == (true, q)
  {
    DumpNormalizes(r);
    NormalizeAgain([r.numberLd, r.granularity, r.startLdId, |r.list|] + Entries(r.list), NO_OVERRIDES);
  }

  /** The failing case: the start id of an empty list is dropped on the second pass. */
  lemma EmptyListLosesStart()
    ensures Normalize([0, 0, 5, 0], NO_OVERRIDES) == (true, [0, 5, 0, 0])
    ensures Normalize([0, 5, 0, 0], NO_OVERRIDES) == (true, [0, 0, 0, 0])
  {
    var p: Bytes, q: Bytes := [0, 0, 5, 0], [0, 5, 0, 0];
    assert [0, 5, 0, 0] + p[4..] == [0, 5, 0, 0] && [0, 0, 0, 0] + q[4..] == [0, 0, 0, 0];
  }
}
