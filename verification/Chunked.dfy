/** Chunked file transfers: Transfer FW (section 8.2.9.3.2 of CXL r3.1) and the vendor DLCFG download.
    Both cut a file into chunks, refill one cleared request buffer and stop at the first failure. */
module Chunked {
  import opened Wire

  const MOD32: nat := 0x1_0000_0000
  const BACKGROUND: int := 1

  datatype Action = Full | Init | Continue | End

  /** One request: its action, its offset field and the bytes behind the header. */
  datatype Chunk = Chunk(action: Action, offset: nat, data: Bytes)

  function PickAction(index: nat, count: nat): Action {
    if count == 1 then Full else if index == 0 then Init else if index == count - 1 then End else Continue
  }

  function PadLen(n: nat): (m: nat)
    ensures n <= m <= n + 3 && m % 4 == 0
  {
    (n + 3) / 4 * 4
  }

  /** The bytes of a sequence of requests, in order. */
  function Flat(cs: seq<Chunk>): Bytes {
    if cs == [] then [] else Flat(cs[..|cs| - 1]) + cs[|cs| - 1].data
  }

  lemma FlatAppend(cs: seq<Chunk>, c: Chunk)
    ensures Flat(cs + [c]) == Flat(cs) + c.data
  {
    assert (cs + [c])[..|cs|] == cs;
  }

  // ---------------------------------------------------------------- what a transfer looks like

  /** The unit of the offset field. */
  datatype Unit = ByBytes | By128

  function Start(u: Unit, c: Chunk): nat { if u == By128 then 128 * c.offset else c.offset }

  predicate StartsAfter(u: Unit, cs: seq<Chunk>, k: nat)
    requires k < |cs|
  {
    Start(u, cs[k]) == if k == 0 then 0 else Start(u, cs[k - 1]) + |cs[k - 1].data|
  }

  /** Offsets are exact: the chunks tile the transfer from its beginning. */
  ghost predicate Contiguous(u: Unit, cs: seq<Chunk>) {
    forall k :: 0 <= k < |cs| ==> StartsAfter(u, cs, k)
  }

  /** A complete transfer is one FULL, or INIT, any number of CONTINUE, END. */
  predicate CompleteActions(cs: seq<Chunk>) {
    if |cs| == 1 then cs[0].action == Full
    else
      && |cs| > 1 && cs[0].action == Init && cs[|cs| - 1].action == End
      && forall k :: 0 < k < |cs| - 1 ==> cs[k].action == Continue
  }

  /** The first `n` chunks are full. */
  predicate Fills(cs: seq<Chunk>, n: int, chunk: nat) {
    n <= |cs| && forall k :: 0 <= k < n ==> |cs[k].data| == chunk
  }

  predicate NoLonger(cs: seq<Chunk>, chunk: nat) { forall k :: 0 <= k < |cs| ==> |cs[k].data| <= chunk }

  /** A transfer cut short has not sent its END. */
  predicate PartialActions(cs: seq<Chunk>) {
    forall k :: 0 <= k < |cs| ==> cs[k].action == if k == 0 then Init else Continue
  }

  /** The return code of the k-th request; requests beyond the list succeed. */
  function Code(codes: seq<int>, k: nat): int { if k < |codes| then codes[k] else 0 }

  // ---------------------------------------------------------------- chunk arithmetic

  /** The byte offset of chunk `k`. */
  function Base(k: nat, chunk: nat): nat { if k == 0 then 0 else Base(k - 1, chunk) + chunk }

  lemma {:induction false} BaseIsProduct(k: nat, chunk: nat)
    ensures Base(k, chunk) == k * chunk
  {
    if k > 0 { BaseIsProduct(k - 1, chunk); }
  }

  lemma {:induction false} BaseScales(k: nat, m: nat)
    ensures Base(k, 128 * m) == 128 * Base(k, m)
    ensures Base(k, 4 * m) == 4 * Base(k, m)
  {
    if k > 0 { BaseScales(k - 1, m); }
  }

  lemma MulMono(a: nat, b: nat, c: nat)
    requires a <= b
    ensures c * a <= c * b
  {
  }

  lemma {:induction false} BaseMono(i: nat, j: nat, chunk: nat)
    requires i <= j
    ensures Base(i, chunk) <= Base(j, chunk) && (i < j ==> Base(i, chunk) + chunk <= Base(j, chunk))
  {
    if i < j { BaseMono(i, j - 1, chunk); }
  }

  /** `count` chunks start inside the file. */
  ghost predicate Counted(size: nat, chunk: nat, count: nat) {
    count > 0 && Base(count - 1, chunk) < size <= Base(count - 1, chunk) + chunk
  }

  /** Rounded-up division counts the chunks that start inside the file. */
  lemma DivisionCounts(size: nat, chunk: nat)
    requires chunk > 0 && size > 0
    ensures Counted(size, chunk, (size + chunk - 1) / chunk)
  {
    var q, r := (size + chunk - 1) / chunk, (size + chunk - 1) % chunk;
    assert size + chunk - 1 == q * chunk + r;
    assert q == 0 ==> q * chunk == 0;
    BaseIsProduct(q - 1, chunk);
    assert (q - 1) * chunk == q * chunk - chunk;
  }

  /** The number of chunks, a 32-bit variable. */
  method ChunkCount(size: nat, chunk: nat) returns (count: nat)
    requires chunk >= 4 && size > 0
    ensures size <= MOD32 ==> Counted(size, chunk, count)
  {
    count := (size + chunk - 1) / chunk % MOD32;
    if size <= MOD32 {
      DivisionCounts(size, chunk);
      var q := (size + chunk - 1) / chunk;
      BaseIsProduct(q - 1, chunk);
      MulMono(4, chunk, q - 1);
    }
  }

  function ByteOffset(index: nat, chunk: nat): nat { index * chunk % MOD32 }

  /** The 32-bit product is the chunk's place exactly below 4 GiB. */
  lemma ByteOffsetExactIff(index: nat, chunk: nat)
    ensures ByteOffset(index, chunk) == index * chunk <==> index * chunk < 0x1_0000_0000
  {
  }

  /** The byte offset of a chunk, a 32-bit product, and the bytes it carries. */
  method Locate(size: nat, chunk: nat, index: nat) returns (byteOffset: nat, dataSz: nat)
    requires size <= MOD32 ==> Base(index, chunk) < size
    ensures dataSz <= chunk
    ensures size <= MOD32 ==> byteOffset == Base(index, chunk) && dataSz == Min(chunk, size - byteOffset)
  {
    BaseIsProduct(index, chunk);
    byteOffset := ByteOffset(index, chunk);
    dataSz := size - byteOffset;
    if dataSz > chunk { dataSz := chunk; }
  }

  // ---------------------------------------------------------------- one chunk at a time

  lemma {:induction false} ContiguousEnd(u: Unit, cs: seq<Chunk>)
    requires Contiguous(u, cs)
    ensures |Flat(cs)| == if cs == [] then 0 else Start(u, cs[|cs| - 1]) + |cs[|cs| - 1].data|
  {
    if cs != [] {
      var front := cs[..|cs| - 1];
      forall k | 0 <= k < |front| ensures StartsAfter(u, front, k) { assert StartsAfter(u, cs, k); }
      ContiguousEnd(u, front);
      assert StartsAfter(u, cs, |cs| - 1);
    }
  }

  /** Chunk `k` of `count` starts where the one before it ends, carries its place in its action, and is
      full unless it is the last. */
  predicate ChunkOk(u: Unit, cs: seq<Chunk>, chunk: nat, count: nat, k: nat)
    requires k < |cs|
  {
    && StartsAfter(u, cs, k) && cs[k].action == PickAction(k, count)
    && if k < count - 1 then |cs[k].data| == chunk else |cs[k].data| <= chunk
  }

  /** The file is sent up to `pos`, with `tail` behind it, and `pos` keeps step with the chunks: it is the
      offset of the next one, or the end. */
  ghost predicate InStep(u: Unit, cs: seq<Chunk>, file: Bytes, pos: nat, tail: Bytes, chunk: nat, count: nat) {
    && pos <= |file| && Flat(cs) == file[..pos] + tail && |cs| <= count
    && (forall k :: 0 <= k < |cs| ==> ChunkOk(u, cs, chunk, count, k))
    && if |cs| < count then pos == Base(|cs|, chunk) && tail == [] else pos == |file|
  }

  lemma InStepContiguous(u: Unit, cs: seq<Chunk>, chunk: nat, count: nat)
    requires forall k :: 0 <= k < |cs| ==> ChunkOk(u, cs, chunk, count, k)
    ensures Contiguous(u, cs)
  {
    forall k | 0 <= k < |cs| ensures StartsAfter(u, cs, k) { assert ChunkOk(u, cs, chunk, count, k); }
  }

  /** The next chunk starts inside the file. */
  lemma NextStarts(u: Unit, cs: seq<Chunk>, file: Bytes, pos: nat, tail: Bytes, chunk: nat, count: nat)
    requires InStep(u, cs, file, pos, tail, chunk, count) && |cs| < count && Counted(|file|, chunk, count)
    ensures pos == Base(|cs|, chunk) < |file|
  {
    BaseMono(|cs|, count - 1, chunk);
  }

  lemma InStepAppend(u: Unit, cs: seq<Chunk>, file: Bytes, pos: nat, chunk: nat, count: nat, c: Chunk, n: nat, tail: Bytes)
    requires InStep(u, cs, file, pos, [], chunk, count) && |cs| < count && Counted(|file|, chunk, count)
    requires Start(u, c) == pos && c.action == PickAction(|cs|, count)
    requires n == Min(chunk, |file| - pos) && c.data == file[pos..pos + n] + tail && n + |tail| <= chunk
    ensures InStep(u, cs + [c], file, pos + n, tail, chunk, count)
  {
    BaseMono(|cs|, count - 1, chunk);
    assert Base(|cs| + 1, chunk) == pos + chunk;
    if |cs| + 1 < count { BaseMono(|cs| + 1, count - 1, chunk); }
    FlatAppend(cs, c);
    assert file[..pos] + (file[pos..pos + n] + tail) == file[..pos + n] + tail;
    ChunksAppend(u, cs, chunk, count, c);
  }

  lemma ChunksAppend(u: Unit, cs: seq<Chunk>, chunk: nat, count: nat, c: Chunk)
    requires forall k :: 0 <= k < |cs| ==> ChunkOk(u, cs, chunk, count, k)
    requires Start(u, c) == |Flat(cs)| && c.action == PickAction(|cs|, count)
    requires if |cs| < count - 1 then |c.data| == chunk else |c.data| <= chunk
    ensures forall k :: 0 <= k <= |cs| ==> ChunkOk(u, cs + [c], chunk, count, k)
  {
    InStepContiguous(u, cs, chunk, count);
    ContiguousEnd(u, cs);
    forall k | 0 <= k <= |cs| ensures ChunkOk(u, cs + [c], chunk, count, k) {
      assert k < |cs| ==> ChunkOk(u, cs, chunk, count, k);
    }
  }

  /** Complete or partial, depending on whether the last chunk is out. */
  lemma InStepMeans(u: Unit, cs: seq<Chunk>, file: Bytes, pos: nat, tail: Bytes, chunk: nat, count: nat)
    requires InStep(u, cs, file, pos, tail, chunk, count) && Counted(|file|, chunk, count)
    ensures Contiguous(u, cs) && NoLonger(cs, chunk)
    ensures if |cs| == count then Flat(cs) == file + tail && CompleteActions(cs) && Fills(cs, |cs| - 1, chunk)
            else Flat(cs) < file && |Flat(cs)| < |file| && PartialActions(cs) && Fills(cs, |cs|, chunk)
  {
    InStepContiguous(u, cs, chunk, count);
    assert forall k :: 0 <= k < |cs| ==> ChunkOk(u, cs, chunk, count, k) ==>
      && |cs[k].data| <= chunk && (k < count - 1 ==> |cs[k].data| == chunk)
      && cs[k].action == PickAction(k, count);
    if |cs| < count { BaseMono(|cs|, count - 1, chunk); }
    assert file[..|file|] == file && file[..pos] + [] == file[..pos];
  }

  /** Clears the request buffer and reads `n` bytes of the file into it. */
  method Refill(buf: array<byte>, file: Bytes, pos: nat, n: nat)
    requires n <= buf.Length && pos + n <= |file|
    modifies buf
    ensures buf[..] == file[pos..pos + n] + Zeros(buf.Length - n)
  {
    forall i | 0 <= i < buf.Length { buf[i] := 0; }
    forall i | 0 <= i < n { buf[i] := file[pos + i]; }
  }

  // ---------------------------------------------------------------- Transfer FW

  predicate FwOk(rc: int) { rc == 0 || rc == BACKGROUND }

  /** The result of a firmware transfer of a file of at most 4 GiB. */
  ghost predicate FwOutcome(file: Bytes, chunk: nat, cs: seq<Chunk>, rc: int, codes: seq<int>, readable: nat) {
    && Contiguous(By128, cs) && (forall k :: 0 <= k < |cs| - 1 ==> FwOk(Code(codes, k)))
    && |cs| <= readable && NoLonger(cs, chunk)
    && if cs != [] && Flat(cs) == file then
         CompleteActions(cs) && Fills(cs, |cs| - 1, chunk) && rc == if FwOk(Code(codes, |cs| - 1)) then 0 else Code(codes, |cs| - 1)
       else
         && Flat(cs) < file && PartialActions(cs) && Fills(cs, |cs|, chunk)
         && (cs != [] ==> rc == Code(codes, |cs| - 1)) && (cs == [] ==> rc == -1)
         && ((cs != [] && !FwOk(Code(codes, |cs| - 1))) || readable <= |cs|)
  }

  /** Fills the buffer with the next chunk of firmware, unless the file cannot be read. */
  method NextFwChunk(file: Bytes, chunk: nat, pos: nat, index: nat, count: nat, readOk: bool, buf: array<byte>)
    returns (next: Option<Chunk>)
    requires buf.Length == chunk && pos <= |file| && chunk % 128 == 0
    requires |file| <= MOD32 ==> pos == Base(index, chunk) < |file|
    modifies buf
    ensures next.Some? ==> pos + |next.value.data| <= |file|
    ensures |file| <= MOD32 ==>
      && (next.Some? <==> readOk)
      && (next.Some? ==>
            && next.value.action == PickAction(index, count) && Start(By128, next.value) == pos
            && next.value.data == file[pos..pos + Min(chunk, |file| - pos)])
  {
    var byteOffset, dataSz := Locate(|file|, chunk, index);
    if !readOk || dataSz > |file| - pos { return None; }
    Refill(buf, file, pos, dataSz);
    BaseScales(index, chunk / 128);
    return Some(Chunk(PickAction(index, count), byteOffset / 128, buf[..dataSz]));
  }

  lemma FwStep(cs: seq<Chunk>, file: Bytes, pos: nat, chunk: nat, count: nat, c: Chunk)
    requires InStep(By128, cs, file, pos, [], chunk, count) && |cs| < count && Counted(|file|, chunk, count)
    requires Start(By128, c) == pos && c.action == PickAction(|cs|, count)
    requires c.data == file[pos..pos + Min(chunk, |file| - pos)]
    ensures InStep(By128, cs + [c], file, pos + |c.data|, [], chunk, count)
  {
    BaseMono(|cs|, count - 1, chunk);
    InStepAppend(By128, cs, file, pos, chunk, count, c, |c.data|, []);
  }

  /** The chunks sent so far of a file of at most 4 GiB. */
  ghost predicate FwSent(file: Bytes, chunk: nat, count: nat, cs: seq<Chunk>, pos: nat, readable: nat) {
    |file| <= MOD32 ==> |cs| <= readable && InStep(By128, cs, file, pos, [], chunk, count)
  }

  lemma FwSentOn(file: Bytes, chunk: nat, count: nat, cs: seq<Chunk>, pos: nat, readable: nat, c: Chunk)
    requires FwSent(file, chunk, count, cs, pos, readable) && |cs| < count
    requires |file| <= MOD32 ==>
      && |cs| < readable && Counted(|file|, chunk, count) && Start(By128, c) == pos <= |file|
      && c.action == PickAction(|cs|, count) && c.data == file[pos..pos + Min(chunk, |file| - pos)]
    ensures FwSent(file, chunk, count, cs + [c], pos + |c.data|, readable)
  {
    if |file| <= MOD32 { FwStep(cs, file, pos, chunk, count, c); }
  }

  /** transfer_fw_file. `codes` are the return codes of the requests, and `readable` is the number
      of reads of the file that succeed before one fails. */
  method TransferFwFile(file: Bytes, chunk: nat, codes: seq<int>, readable: nat)
    returns (rc: int, sent: seq<Chunk>)
    requires 0 < chunk < MOD32 && chunk % 128 == 0
    ensures file == [] ==> rc == -1 && sent == []
    ensures 0 < |file| <= MOD32 ==> FwOutcome(file, chunk, sent, rc, codes, readable)
  {
    if |file| == 0 { return -1, []; }
    var count := ChunkCount(|file|, chunk);
    ghost var pos;
    rc, sent, pos := SendFwChunks(file, chunk, count, codes, readable);
    if |file| <= MOD32 { FwEnds(file, sent, pos, chunk, count, rc, codes, readable); }
    if |sent| == count && FwOk(rc) { rc := 0; }
  }

  /** The transfer loop: sends chunks until the last one, a rejection or a failed read. */
  method SendFwChunks(file: Bytes, chunk: nat, count: nat, codes: seq<int>, readable: nat)
    returns (rc: int, sent: seq<Chunk>, ghost pos: nat)
    requires 0 < chunk < MOD32 && chunk % 128 == 0
    requires |file| <= MOD32 ==> Counted(|file|, chunk, count)
    ensures |sent| <= count && rc == if sent == [] then -1 else Code(codes, |sent| - 1)
    ensures forall k :: 0 <= k < |sent| - 1 ==> FwOk(Code(codes, k))
    ensures FwSent(file, chunk, count, sent, pos, readable)
    ensures |file| <= MOD32 && |sent| < count ==> (sent != [] && !FwOk(rc)) || readable <= |sent|
  {
    rc, sent := -1, [];
    var buf := new byte[chunk];
    var at, index := 0, 0;
    pos := 0;
    ghost var small := |file| <= MOD32;
    while index < count
      invariant index == |sent| <= count && pos == at <= |file|
      invariant rc == if index == 0 then -1 else Code(codes, index - 1)
      invariant forall k :: 0 <= k < index ==> FwOk(Code(codes, k))
      invariant FwSent(file, chunk, count, sent, pos, readable)
    {
      if small { NextStarts(By128, sent, file, pos, [], chunk, count); }
      var next := NextFwChunk(file, chunk, at, index, count, index < readable, buf);
      if next.None? { return; }
      FwSentOn(file, chunk, count, sent, pos, readable, next.value);
      sent, at := sent + [next.value], at + |next.value.data|;
      pos := at;
      rc := Code(codes, index);
      index := index + 1;
      if !FwOk(rc) { return; }
    }
  }

  lemma FwEnds(file: Bytes, cs: seq<Chunk>, pos: nat, chunk: nat, count: nat, last: int, codes: seq<int>, readable: nat)
    requires InStep(By128, cs, file, pos, [], chunk, count) && Counted(|file|, chunk, count)
    requires forall k :: 0 <= k < |cs| - 1 ==> FwOk(Code(codes, k))
    requires |cs| <= readable
    requires last == if cs == [] then -1 else Code(codes, |cs| - 1)
    requires |cs| < count ==> (cs != [] && !FwOk(last)) || readable <= |cs|
    ensures FwOutcome(file, chunk, cs, if |cs| == count && FwOk(last) then 0 else last, codes, readable)
  {
    InStepMeans(By128, cs, file, pos, [], chunk, count);
  }

  // ---------------------------------------------------------------- DLCFG

  function Pad(n: nat): (z: Bytes)
    ensures |z| == PadLen(n) - n <= 3
  {
    Zeros(PadLen(n) - n)
  }

  /** A whole number of words in front does not change the padding. */
  lemma PadShift(base: nat, n: nat)
    requires base % 4 == 0
    ensures Pad(base + n) == Pad(n)
  {
    assert (base + n + 3) / 4 == base / 4 + (n + 3) / 4;
  }

  /** The result of a DLCFG download of a file of at most 4 GiB. */
  ghost predicate DlcfgOutcome(file: Bytes, chunk: nat, cs: seq<Chunk>, rc: int, codes: seq<int>, readable: nat) {
    && Contiguous(ByBytes, cs) && (forall k :: 0 <= k < |cs| - 1 ==> Code(codes, k) == 0)
    && |cs| <= readable && NoLonger(cs, chunk)
    && if cs != [] && |Flat(cs)| >= |file| then
         && Flat(cs) == file + Pad(|file|) && CompleteActions(cs) && Fills(cs, |cs| - 1, chunk)
         && rc == Code(codes, |cs| - 1)
       else
         && Flat(cs) < file && PartialActions(cs) && Fills(cs, |cs|, chunk)
         && (cs != [] ==> rc == Code(codes, |cs| - 1)) && (cs == [] ==> rc == -1)
         && ((cs != [] && Code(codes, |cs| - 1) != 0) || readable <= |cs|)
  }

  /** Fills the buffer with the next chunk, padded with the zeros of the cleared buffer. */
  method NextDlcfgChunk(file: Bytes, chunk: nat, pos: nat, index: nat, count: nat, readOk: bool, buf: array<byte>)
    returns (next: Option<Chunk>, dataSz: nat)
    requires buf.Length == chunk && pos <= |file| && chunk % 4 == 0
    requires |file| <= MOD32 ==> pos == Base(index, chunk) < |file|
    modifies buf
    ensures next.Some? ==> pos + dataSz <= |file|
    ensures |file| <= MOD32 ==> dataSz == Min(chunk, |file| - pos) && (next.Some? <==> readOk)
    ensures |file| <= MOD32 && next.Some? ==>
      next.value == Chunk(PickAction(index, count), pos, file[pos..pos + dataSz] + Pad(dataSz))
  {
    var byteOffset: nat;
    byteOffset, dataSz := Locate(|file|, chunk, index);
    var paddedSz := PadLen(dataSz);
    if !readOk || dataSz > |file| - pos { return None, dataSz; }
    Refill(buf, file, pos, dataSz);
    assert buf[..paddedSz] == file[pos..pos + dataSz] + Pad(dataSz);
    return Some(Chunk(PickAction(index, count), byteOffset, buf[..paddedSz])), dataSz;
  }

  /** The padding behind the file, once all `count` chunks are out. */
  function Tail(file: Bytes, sent: nat, count: nat): Bytes { if sent == count then Pad(|file|) else [] }

  lemma DlcfgStep(cs: seq<Chunk>, file: Bytes, pos: nat, chunk: nat, count: nat, c: Chunk, n: nat)
    requires InStep(ByBytes, cs, file, pos, Tail(file, |cs|, count), chunk, count)
    requires |cs| < count && Counted(|file|, chunk, count)
    requires chunk % 4 == 0 && n == Min(chunk, |file| - pos)
    requires c == Chunk(PickAction(|cs|, count), pos, file[pos..pos + n] + Pad(n))
    ensures InStep(ByBytes, cs + [c], file, pos + n, Tail(file, |cs| + 1, count), chunk, count)
  {
    BaseMono(|cs|, count - 1, chunk);
    InStepAppend(ByBytes, cs, file, pos, chunk, count, c, n, Pad(n));
    BaseScales(|cs|, chunk / 4);
    PadShift(pos, n);
  }

  /** The chunks sent so far of a file of at most 4 GiB. */
  ghost predicate DlcfgSent(file: Bytes, chunk: nat, count: nat, cs: seq<Chunk>, pos: nat, readable: nat) {
    |file| <= MOD32 ==> |cs| <= readable && InStep(ByBytes, cs, file, pos, Tail(file, |cs|, count), chunk, count)
  }

  lemma DlcfgSentOn(file: Bytes, chunk: nat, count: nat, cs: seq<Chunk>, pos: nat, readable: nat, c: Chunk, n: nat)
    requires DlcfgSent(file, chunk, count, cs, pos, readable) && |cs| < count && chunk % 4 == 0
    requires |file| <= MOD32 ==>
      && |cs| < readable && Counted(|file|, chunk, count) && pos <= |file| && n == Min(chunk, |file| - pos)
      && c == Chunk(PickAction(|cs|, count), pos, file[pos..pos + n] + Pad(n))
    ensures DlcfgSent(file, chunk, count, cs + [c], pos + n, readable)
  {
    if |file| <= MOD32 { DlcfgStep(cs, file, pos, chunk, count, c, n); }
  }

  /** vu_dlcfg_file. `codes` are the return codes of the requests, and `readable` is the number of
      reads of the file that succeed before one fails. */
  method VuDlcfgFile(file: Bytes, chunk: nat, codes: seq<int>, readable: nat)
    returns (rc: int, sent: seq<Chunk>)
    requires 0 < chunk < MOD32 && chunk % 4 == 0
    ensures file == [] ==> rc == -1 && sent == []
    ensures 0 < |file| <= MOD32 ==> DlcfgOutcome(file, chunk, sent, rc, codes, readable)
  {
    if |file| == 0 { return -1, []; }
    var count := ChunkCount(|file|, chunk);
    ghost var pos;
    rc, sent, pos := SendDlcfgChunks(file, chunk, count, codes, readable);
    if |file| <= MOD32 { DlcfgEnds(file, sent, pos, chunk, count, rc, codes, readable); }
  }

  /** The download loop: sends chunks until the last one, a rejection or a failed read. */
  method SendDlcfgChunks(file: Bytes, chunk: nat, count: nat, codes: seq<int>, readable: nat)
    returns (rc: int, sent: seq<Chunk>, ghost pos: nat)
    requires 0 < chunk < MOD32 && chunk % 4 == 0
    requires |file| <= MOD32 ==> Counted(|file|, chunk, count)
    ensures |sent| <= count && rc == if sent == [] then -1 else Code(codes, |sent| - 1)
    ensures forall k :: 0 <= k < |sent| - 1 ==> Code(codes, k) == 0
    ensures DlcfgSent(file, chunk, count, sent, pos, readable)
    ensures |file| <= MOD32 && |sent| < count ==> (sent != [] && rc != 0) || readable <= |sent|
  {
    rc, sent := -1, [];
    var buf := new byte[chunk];
    var at, index := 0, 0;
    pos := 0;
    ghost var small := |file| <= MOD32;
    while index < count
      invariant index == |sent| <= count && pos == at <= |file|
      invariant rc == if index == 0 then -1 else Code(codes, index - 1)
      invariant forall k :: 0 <= k < index ==> Code(codes, k) == 0
      invariant DlcfgSent(file, chunk, count, sent, pos, readable)
    {
      if small { NextStarts(ByBytes, sent, file, pos, Tail(file, index, count), chunk, count); }
      var next, dataSz := NextDlcfgChunk(file, chunk, at, index, count, index < readable, buf);
      if next.None? { return; }
      DlcfgSentOn(file, chunk, count, sent, pos, readable, next.value, dataSz);
      sent, at := sent + [next.value], at + dataSz;
      pos := at;
      rc := Code(codes, index);
      index := index + 1;
      if rc != 0 { return; }
    }
  }

  lemma DlcfgEnds(file: Bytes, cs: seq<Chunk>, pos: nat, chunk: nat, count: nat, last: int,
                  codes: seq<int>, readable: nat)
    requires InStep(ByBytes, cs, file, pos, Tail(file, |cs|, count), chunk, count) && Counted(|file|, chunk, count)
    requires forall k :: 0 <= k < |cs| - 1 ==> Code(codes, k) == 0
    requires |cs| <= readable
    requires last == if cs == [] then -1 else Code(codes, |cs| - 1)
    requires |cs| < count ==> (cs != [] && last != 0) || readable <= |cs|
    ensures DlcfgOutcome(file, chunk, cs, last, codes, readable)
  {
    InStepMeans(ByBytes, cs, file, pos, Tail(file, |cs|, count), chunk, count);
  }

  // ---------------------------------------------------------------- what a return code of 0 means

  lemma {:induction false} FlatBase(cs: seq<Chunk>, chunk: nat)
    requires NoLonger(cs, chunk)
    ensures |Flat(cs)| <= Base(|cs|, chunk) && (Fills(cs, |cs|, chunk) ==> |Flat(cs)| == Base(|cs|, chunk))
  {
    if cs != [] { FlatBase(cs[..|cs| - 1], chunk); }
  }

  /** A DLCFG download that returns 0 has sent the whole file if and only if the reads that succeed reach
      its end. */
  lemma DlcfgWholeIff(file: Bytes, chunk: nat, cs: seq<Chunk>, rc: int, codes: seq<int>, readable: nat)
    requires DlcfgOutcome(file, chunk, cs, rc, codes, readable) && rc == 0
    ensures Flat(cs) == file + Pad(|file|) <==> readable * chunk >= |file|
  {
    FlatBase(cs, chunk);
    BaseMono(|cs|, readable, chunk);
    BaseIsProduct(readable, chunk);
    assert Flat(cs) == file + Pad(|file|) ==> |Flat(cs)| >= |file|;
  }

  /** And so has a firmware transfer. */
  lemma FwWholeIff(file: Bytes, chunk: nat, cs: seq<Chunk>, rc: int, codes: seq<int>, readable: nat)
    requires FwOutcome(file, chunk, cs, rc, codes, readable) && file != [] && rc == 0
    ensures Flat(cs) == file <==> readable * chunk >= |file|
  {
    FlatBase(cs, chunk);
    BaseMono(|cs|, readable, chunk);
    BaseIsProduct(readable, chunk);
  }

  /** A read that fails behind an accepted first chunk is reported as success: whatever the file, as
      long as it needs a second chunk. */
  lemma FailedReadReportedAsSuccess(file: Bytes, chunk: nat, cs: seq<Chunk>, rc: int, codes: seq<int>, readable: nat)
    requires DlcfgOutcome(file, chunk, cs, rc, codes, readable) && |file| > chunk
    requires Code(codes, 0) == 0 && readable == 1
    ensures rc == 0 && Flat(cs) < file
  {
    if |cs| == 1 {
      FlatAppend([], cs[0]);
      assert [] + [cs[0]] == cs;
    }
  }

  /** So does a firmware transfer. */
  lemma FwFailedReadReportedAsSuccess(file: Bytes, chunk: nat, cs: seq<Chunk>, rc: int, codes: seq<int>, readable: nat)
    requires FwOutcome(file, chunk, cs, rc, codes, readable) && |file| > chunk
    requires Code(codes, 0) == 0 && readable == 1
    ensures rc == 0 && Flat(cs) < file
  {
    if |cs| == 1 {
      FlatAppend([], cs[0]);
      assert [] + [cs[0]] == cs;
    }
  }

  // ---------------------------------------------------------------- codes and offsets, in numbers

  /** A firmware chunk refused with any code but 0 and 1 is the last one, and its code is returned. */
  lemma FwStopsAtRefusal(file: Bytes, chunk: nat, cs: seq<Chunk>, rc: int, codes: seq<int>, readable: nat, k: nat)
    requires FwOutcome(file, chunk, cs, rc, codes, readable)
    requires k < |cs| && k < |codes| && codes[k] != 0 && codes[k] != 1
    ensures k == |cs| - 1 && rc == codes[k]
  {
    assert Code(codes, k) == codes[k];
  }

  /** A transfer whose last chunk got 0 or 1 has sent the file and returns 0, or its next read failed. */
  lemma FwGoesOn(file: Bytes, chunk: nat, cs: seq<Chunk>, rc: int, codes: seq<int>, readable: nat)
    requires FwOutcome(file, chunk, cs, rc, codes, readable) && file != []
    requires cs != [] ==> |cs| > |codes| || codes[|cs| - 1] == 0 || codes[|cs| - 1] == 1
    ensures cs != [] ==> (Flat(cs) == file && rc == 0) || readable == |cs|
    ensures cs == [] ==> readable == 0 && rc == -1
  {
  }

  /** A DLCFG chunk refused with any code but 0 is the last one, and its code is returned. */
  lemma DlcfgStopsAtRefusal(file: Bytes, chunk: nat, cs: seq<Chunk>, rc: int, codes: seq<int>, readable: nat, k: nat)
    requires DlcfgOutcome(file, chunk, cs, rc, codes, readable) && k < |cs| && k < |codes| && codes[k] != 0
    ensures k == |cs| - 1 && rc == codes[k]
  {
    assert Code(codes, k) == codes[k];
  }

  lemma DlcfgGoesOn(file: Bytes, chunk: nat, cs: seq<Chunk>, rc: int, codes: seq<int>, readable: nat)
    requires DlcfgOutcome(file, chunk, cs, rc, codes, readable)
    requires cs != [] ==> |cs| > |codes| || codes[|cs| - 1] == 0
    ensures cs != [] ==> rc == 0 && (Flat(cs) == file + Pad(|file|) || readable == |cs|)
    ensures cs == [] ==> readable == 0 && rc == -1
  {
    assert cs != [] ==> Code(codes, |cs| - 1) == 0;
  }

  /** The padding is as many zeros as a multiple of four is away. */
  lemma PadIs(n: nat)
    ensures Pad(n) == Zeros((4 - n % 4) % 4)
  {
    var m := PadLen(n) - n;
    assert (n % 4 + m) % 4 == 0;
  }

  lemma {:induction false} TiledOffset(u: Unit, cs: seq<Chunk>, chunk: nat, k: nat)
    requires Contiguous(u, cs) && k < |cs| && Fills(cs, k, chunk)
    ensures Start(u, cs[k]) == k * chunk
  {
    assert StartsAfter(u, cs, k);
    if k > 0 {
      TiledOffset(u, cs, chunk, k - 1);
      assert |cs[k - 1].data| == chunk;
      assert k * chunk == (k - 1) * chunk + chunk;
    }
  }

  /** The offset field of a firmware chunk counts 128-byte units, the one of a DLCFG chunk bytes. */
  lemma FwOffset(file: Bytes, chunk: nat, cs: seq<Chunk>, rc: int, codes: seq<int>, readable: nat, k: nat)
    requires FwOutcome(file, chunk, cs, rc, codes, readable) && k < |cs|
    ensures 128 * cs[k].offset == k * chunk
  {
    TiledOffset(By128, cs, chunk, k);
  }

  lemma DlcfgOffset(file: Bytes, chunk: nat, cs: seq<Chunk>, rc: int, codes: seq<int>, readable: nat, k: nat)
    requires DlcfgOutcome(file, chunk, cs, rc, codes, readable) && k < |cs|
    ensures cs[k].offset == k * chunk
  {
    TiledOffset(ByBytes, cs, chunk, k);
  }

  /** So chunk `k` carries the file's bytes from there on. */
  lemma {:induction false} FlatAt(cs: seq<Chunk>, chunk: nat, k: nat)
    requires k < |cs| && Fills(cs, k, chunk)
    ensures k * chunk + |cs[k].data| <= |Flat(cs)|
    ensures cs[k].data == Flat(cs)[k * chunk..k * chunk + |cs[k].data|]
    decreases |cs|
  {
    var front, last := cs[..|cs| - 1], cs[|cs| - 1];
    if k == |cs| - 1 {
      FlatFull(front, chunk);
    } else {
      FlatAt(front, chunk, k);
    }
  }

  lemma {:induction false} FlatFull(cs: seq<Chunk>, chunk: nat)
    requires Fills(cs, |cs|, chunk)
    ensures |Flat(cs)| == |cs| * chunk
  {
    if cs != [] {
      FlatFull(cs[..|cs| - 1], chunk);
      assert |cs| * chunk == (|cs| - 1) * chunk + chunk;
    }
  }

  /** The action of chunk `k`: the only one of a complete transfer is FULL; otherwise the first is INIT, the
      last of a complete transfer END, and all others CONTINUE. */
  lemma FwAction(file: Bytes, chunk: nat, cs: seq<Chunk>, rc: int, codes: seq<int>, readable: nat, k: nat)
    requires FwOutcome(file, chunk, cs, rc, codes, readable) && k < |cs|
    ensures var complete := Flat(cs) == file;
            cs[k].action == if complete && |cs| == 1 then Full else if k == 0 then Init
                            else if complete && k == |cs| - 1 then End else Continue
  {
  }

  lemma DlcfgAction(file: Bytes, chunk: nat, cs: seq<Chunk>, rc: int, codes: seq<int>, readable: nat, k: nat)
    requires DlcfgOutcome(file, chunk, cs, rc, codes, readable) && k < |cs|
    ensures var complete := |Flat(cs)| >= |file|;
            cs[k].action == if complete && |cs| == 1 then Full else if k == 0 then Init
                            else if complete && k == |cs| - 1 then End else Continue
  {
  }
}
