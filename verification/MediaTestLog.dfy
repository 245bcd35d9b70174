/** The media-test result long log: a 16-byte header, then entries of 48 bytes, each followed by its own
    number of 80-byte signatures (Table 8-99 of CXL r3.2). */
module MediaTestLog {
  import opened Wire

  const LOG_HEADER: nat := 16
  const MAX_ENTRIES: nat := 64
  const MOD32: nat := 0x1_0000_0000

  /** What the walk reports of a signature and of an entry. */
  datatype SigView = SigView(iteration: nat, phys: nat) {
    function IsVolatile(): nat { phys % 2 }
    function ErrorType(): nat { phys / 2 % 4 }
    function Dpa(): nat { phys / 64 }
  }

  datatype EntryView = EntryView(testId: nat, start: nat, end: nat, result: nat, flags: nat,
                                 uncorrectable: nat, correctable: nat, capacity: nat, sigs: seq<SigView>)

  /** The physical address word packs a flag, an error type and an address. */
  lemma PhysFields(iteration: nat, isVolatile: nat, errorType: nat, reserved: nat, dpa: nat)
    requires isVolatile < 2 && errorType < 4 && reserved < 8
    ensures var v := SigView(iteration, isVolatile + 2 * errorType + 8 * reserved + 64 * dpa);
            v.IsVolatile() == isVolatile && v.ErrorType() == errorType && v.Dpa() == dpa
  {
    var high := reserved + 8 * dpa;
    assert isVolatile + 2 * errorType + 8 * reserved + 64 * dpa == 2 * (errorType + 4 * high) + isVolatile;
    DivMod(2, errorType + 4 * high, isVolatile);
    DivMod(4, high, errorType);
    DivMod(64, dpa, isVolatile + 2 * errorType + 8 * reserved);
  }

  lemma DivMod(m: nat, q: nat, r: nat)
    requires r < m && (m == 2 || m == 4 || m == 64)
    ensures (m * q + r) / m == q && (m * q + r) % m == r
  {
    if m == 2 {
      assert (2 * q + r) / 2 == q;
    } else if m == 4 {
      assert (4 * q + r) / 4 == q;
    } else {
      assert (64 * q + r) / 64 == q;
    }
  }

  /** The whole signatures in `room` bytes. */
  function MaxSigs(room: nat): (n: nat)
    ensures 80 * n <= room < 80 * n + 80
  {
    if room < 80 then 0 else 1 + MaxSigs(room - 80)
  }

  function SigAt(b: Bytes): SigView
    requires |b| == 80
  {
    SigView(FromLe(b, 0, 2), FromLe(b, 2, 8))
  }

  function SigsOf(b: Bytes): seq<SigView> {
    if |b| < 80 then [] else SigsOf(b[..|b| - 80]) + [SigAt(b[|b| - 80..])]
  }

  function HeadAt(e: Bytes): EntryView
    requires |e| == 48
  {
    EntryView(FromLe(e, 0, 2), FromLe(e, 2, 8), FromLe(e, 0xa, 8), e[0x12], e[0x13],
              FromLe(e, 0x14, 4), FromLe(e, 0x18, 4), FromLe(e, 0x20, 8), [])
  }

  /** The meaning of the bytes of one entry with its signatures. */
  function Decode(piece: Bytes): EntryView {
    if |piece| < 48 then EntryView(0, 0, 0, 0, 0, 0, 0, 0, []) else HeadAt(piece[..48]).(sigs := SigsOf(piece[48..]))
  }

  // ---------------------------------------------------------------- cutting a buffer into entries

  /** The signatures of the entry at `off`: those it states, cut to what the buffer holds. */
  function SigCount(b: Bytes, off: nat): (n: nat)
    requires off + 48 <= |b|
    ensures off + 48 + 80 * n <= |b|
  {
    Min(FromLe(b, off + 0x28, 4), MaxSigs(|b| - off - 48))
  }

  /** The length of the entry at `off` with its signatures. */
  function PieceLength(b: Bytes, off: nat): (n: nat)
    requires off + 48 <= |b|
    ensures n >= 48 && off + n <= |b|
  {
    48 + 80 * SigCount(b, off)
  }

  /** The entries from `off` on, `room` at most. */
  function Pieces(b: Bytes, off: nat, room: nat): seq<Bytes>
    decreases |b| - off
  {
    if off + 48 > |b| || room == 0 then []
    else var n := PieceLength(b, off); [b[off..off + n]] + Pieces(b, off + n, room - 1)
  }

  /** Where they end. */
  function End(b: Bytes, off: nat, room: nat): nat
    decreases |b| - off
  {
    if off + 48 > |b| || room == 0 then off else End(b, off + PieceLength(b, off), room - 1)
  }

  lemma {:induction false} FirstPiece(b: Bytes, off: nat, room: nat, next: nat)
    requires off + 48 <= |b| && room > 0 && next == off + PieceLength(b, off)
    ensures Pieces(b, off, room) == [b[off..next]] + Pieces(b, next, room - 1)
    ensures End(b, off, room) == End(b, next, room - 1)
  {
  }

  function Concat(ps: seq<Bytes>): Bytes { if ps == [] then [] else ps[0] + Concat(ps[1..]) }

  lemma Slices(b: Bytes, i: nat, j: nat, k: nat)
    requires i <= j <= k <= |b|
    ensures b[i..j] + b[j..k] == b[i..k]
  {
  }

  lemma {:induction false} ConcatFirst(p: Bytes, ps: seq<Bytes>)
    ensures Concat([p] + ps) == p + Concat(ps)
  {
    assert ([p] + ps)[1..] == ps;
  }

  lemma {:induction false} EndBounds(b: Bytes, off: nat, room: nat)
    requires off <= |b|
    ensures off <= End(b, off, room) <= |b|
    ensures |Pieces(b, off, room)| <= room && (|Pieces(b, off, room)| < room ==> End(b, off, room) + 48 > |b|)
    decreases |b| - off
  {
    if off + 48 <= |b| && room > 0 { EndBounds(b, off + PieceLength(b, off), room - 1); }
  }

  lemma {:induction false} ConcatTiles(b: Bytes, off: nat, room: nat)
    requires off <= End(b, off, room) <= |b|
    ensures Concat(Pieces(b, off, room)) == b[off..End(b, off, room)]
    decreases |b| - off
  {
    if off + 48 <= |b| && room > 0 {
      var next := off + PieceLength(b, off);
      EndBounds(b, next, room - 1);
      ConcatTiles(b, next, room - 1);
      ConcatFirst(b[off..next], Pieces(b, next, room - 1));
      Slices(b, off, next, End(b, off, room));
    }
  }

  predicate Full(p: Bytes) { |p| >= 48 }

  /** No entry is shorter than its header. */
  lemma {:induction false} PiecesFull(b: Bytes, off: nat, room: nat, k: nat)
    requires k < |Pieces(b, off, room)|
    ensures Full(Pieces(b, off, room)[k])
    decreases |b| - off
  {
    if k > 0 {
      var n := PieceLength(b, off);
      PiecesFull(b, off + n, room - 1, k - 1);
      assert Pieces(b, off, room)[k] == Pieces(b, off + n, room - 1)[k - 1];
    }
  }

  /** On arbitrary bytes: the entries are contiguous and disjoint and lie in the buffer, and what is
      left over is too short for another one unless the limit was reached. */
  lemma {:induction false} PiecesTile(b: Bytes, off: nat, room: nat)
    requires off <= |b|
    ensures off <= End(b, off, room) <= |b| && Concat(Pieces(b, off, room)) == b[off..End(b, off, room)]
    ensures |Pieces(b, off, room)| <= room && (|Pieces(b, off, room)| < room ==> End(b, off, room) + 48 > |b|)
    ensures forall k :: 0 <= k < |Pieces(b, off, room)| ==> Full(Pieces(b, off, room)[k])
  {
    EndBounds(b, off, room);
    ConcatTiles(b, off, room);
    forall k | 0 <= k < |Pieces(b, off, room)| ensures Full(Pieces(b, off, room)[k]) { PiecesFull(b, off, room, k); }
  }

  // ---------------------------------------------------------------- the walk

  /** The guard of the loop, in 32-bit arithmetic. */
  predicate MoreFits(off: nat, length: nat) { (off + 48) % MOD32 <= length }

  /** It holds when a header fits, and also when the sum wraps. */
  lemma GuardMeans(off: nat, length: nat)
    requires 16 <= off <= length < MOD32
    ensures MoreFits(off, length) <==> off + 48 <= length || off + 48 >= MOD32
  {
  }

  /** One turn of the loop: the entry at `off`, and the offset behind it. */
  method ReadEntry(buf: Bytes, off: nat) returns (e: EntryView, next: nat)
    requires off + 48 <= |buf|
    ensures next == off + PieceLength(buf, off) && e == Decode(buf[off..next])
  {
    var nSig := FromLe(buf, off + 0x28, 4);
    var maxSig := (|buf| - off - 48) / 80;
    DivisionCounts(|buf| - off - 48);
    if nSig > maxSig { nSig := maxSig; }
    e := HeadAt(buf[off..off + 48]);
    var sigs := ReadSigs(buf, off + 48, nSig);
    next := off + 48 + 80 * nSig;
    e := e.(sigs := sigs);
    DecodeAt(buf, off, next);
  }

  lemma {:induction false} DivisionCounts(room: nat)
    ensures room / 80 == MaxSigs(room)
  {
    if room >= 80 { DivisionCounts(room - 80); }
  }

  lemma {:induction false} DecodeAt(buf: Bytes, off: nat, next: nat)
    requires off + 48 <= next <= |buf|
    ensures Decode(buf[off..next]) == HeadAt(buf[off..off + 48]).(sigs := SigsOf(buf[off + 48..next]))
  {
    assert buf[off..next][..48] == buf[off..off + 48] && buf[off..next][48..] == buf[off + 48..next];
  }

  ghost predicate SigsRead(buf: Bytes, at: nat, x: nat, sigs: seq<SigView>) {
    at <= x <= |buf| && sigs == SigsOf(buf[at..x])
  }

  lemma {:induction false} SigsReadOn(buf: Bytes, at: nat, x: nat, sigs: seq<SigView>)
    requires SigsRead(buf, at, x, sigs) && x + 80 <= |buf|
    ensures SigsRead(buf, at, x + 80, sigs + [SigAt(buf[x..x + 80])])
  {
    SigAppended(buf[at..x], buf[x..x + 80]);
    Slices(buf, at, x, x + 80);
  }

  method ReadSigs(buf: Bytes, at: nat, n: nat) returns (sigs: seq<SigView>)
    requires at + 80 * n <= |buf|
    ensures SigsRead(buf, at, at + 80 * n, sigs)
  {
    sigs := [];
    var s, x := 0, at;
    while s < n
      invariant 0 <= s <= n && x == at + 80 * s && SigsRead(buf, at, x, sigs)
    {
      SigsReadOn(buf, at, x, sigs);
      sigs := sigs + [SigAt(buf[x..x + 80])];
      s, x := s + 1, x + 80;
    }
  }

  function DecodeAll(ps: seq<Bytes>): seq<EntryView> {
    if ps == [] then [] else [Decode(ps[0])] + DecodeAll(ps[1..])
  }

  /** What a walk reports from `off` on: the entries, decoded one by one. */
  function Report(b: Bytes, off: nat, room: nat): seq<EntryView> { DecodeAll(Pieces(b, off, room)) }

  /** The entries of a log end, short of the limit, so close below 4 GiB that the guard wraps. */
  predicate Strays(buf: Bytes) {
    && |buf| >= LOG_HEADER && |Report(buf, LOG_HEADER, MAX_ENTRIES)| < MAX_ENTRIES
    && End(buf, LOG_HEADER, MAX_ENTRIES) + 48 >= MOD32
  }

  /** Some entries are reported, and the rest follows from `off`. */
  ghost predicate Walked(buf: Bytes, start: nat, room: nat, entries: seq<EntryView>, off: nat, left: nat) {
    && Report(buf, start, room) == entries + Report(buf, off, left)
    && End(buf, start, room) == End(buf, off, left)
  }

  /** The loop, from any offset and for any limit. */
  method WalkEntries(buf: Bytes, start: nat, room: nat) returns (entries: seq<EntryView>, strayed: bool)
    requires 16 <= start <= |buf| < MOD32
    ensures entries == Report(buf, start, room)
    ensures strayed <==> |entries| < room && End(buf, start, room) + 48 >= MOD32
  {
    entries, strayed := [], false;
    var off, idx := start, 0;
    ghost var left := room;
    while MoreFits(off, |buf|) && idx < room
      invariant start <= off <= |buf| && idx == |entries| == room - left && !strayed
      invariant Walked(buf, start, room, entries, off, left)
      decreases |buf| - off
    {
      GuardMeans(off, |buf|);
      if off + 48 > |buf| { return entries, true; }
      var e, next := ReadEntry(buf, off);
      WalkedOn(buf, start, room, entries, off, left, next);
      entries := entries + [e];
      off, idx, left := next, idx + 1, left - 1;
    }
    GuardMeans(off, |buf|);
  }

  /** The walk, for every 32-bit length. It reports the entries of the log; then it ends, or strays: the
      guard lets it read on although no header fits. */
  method Walk(buf: Bytes) returns (entries: seq<EntryView>, strayed: bool)
    requires |buf| < MOD32
    ensures entries == if |buf| < 16 then [] else Report(buf, 16, 64)
    ensures strayed <==> Strays(buf)
  {
    if |buf| < LOG_HEADER { return [], false; }
    entries, strayed := WalkEntries(buf, LOG_HEADER, MAX_ENTRIES);
  }

  lemma {:induction false} WalkedOn(buf: Bytes, start: nat, room: nat, entries: seq<EntryView>, off: nat, left: nat, next: nat)
    requires Walked(buf, start, room, entries, off, left)
    requires off + 48 <= |buf| && left > 0 && next == off + PieceLength(buf, off)
    ensures Walked(buf, start, room, entries + [Decode(buf[off..next])], next, left - 1)
  {
    FirstPiece(buf, off, left, next);
    DecodeFirst(buf[off..next], Pieces(buf, next, left - 1));
    Regroup(entries, Decode(buf[off..next]), Report(buf, next, left - 1));
  }

  lemma Regroup<T>(front: seq<T>, x: T, rest: seq<T>)
    ensures front + ([x] + rest) == front + [x] + rest
  {
  }

  lemma {:induction false} DecodeFirst(p: Bytes, ps: seq<Bytes>)
    ensures DecodeAll([p] + ps) == [Decode(p)] + DecodeAll(ps)
  {
    assert ([p] + ps)[1..] == ps;
  }

  // ---------------------------------------------------------------- well-formed logs

  /** A signature and an entry as a device writes them; the bytes of `rest`, `gap` and `tail` are not
      decoded. */
  datatype Sig = Sig(iteration: nat, phys: nat, rest: Bytes)

  datatype Entry = Entry(testId: nat, start: nat, end: nat, result: byte, flags: byte, uncorrectable: nat,
                         correctable: nat, gap: Bytes, capacity: nat, tail: Bytes, sigs: seq<Sig>)

  ghost predicate SigOk(s: Sig) { s.iteration < Pow256(2) && s.phys < Pow256(8) && |s.rest| == 70 }

  ghost predicate EntryOk(e: Entry) {
    && e.testId < Pow256(2) && e.start < Pow256(8) && e.end < Pow256(8) && e.uncorrectable < Pow256(4)
    && e.correctable < Pow256(4) && |e.gap| == 4 && e.capacity < Pow256(8) && |e.tail| == 4
    && |e.sigs| < Pow256(4) && forall i :: 0 <= i < |e.sigs| ==> SigOk(e.sigs[i])
  }

  function EncodeSig(s: Sig): Bytes { Le(s.iteration, 2) + Le(s.phys, 8) + s.rest }

  function EncodeFront(e: Entry): Bytes { Le(e.testId, 2) + Le(e.start, 8) + Le(e.end, 8) + [e.result, e.flags] }

  function EncodeBack(e: Entry): Bytes {
    Le(e.uncorrectable, 4) + Le(e.correctable, 4) + e.gap + Le(e.capacity, 8) + Le(|e.sigs|, 4) + e.tail
  }

  function EncodeHead(e: Entry): Bytes { EncodeFront(e) + EncodeBack(e) }

  function EncodeSigs(ss: seq<Sig>): Bytes {
    if ss == [] then [] else EncodeSigs(ss[..|ss| - 1]) + EncodeSig(ss[|ss| - 1])
  }

  function EncodeEntry(e: Entry): Bytes { EncodeHead(e) + EncodeSigs(e.sigs) }

  function EncodeEntries(es: seq<Entry>): seq<Bytes> {
    if es == [] then [] else [EncodeEntry(es[0])] + EncodeEntries(es[1..])
  }

  function ViewSig(s: Sig): SigView { SigView(s.iteration, s.phys) }

  function ViewSigs(ss: seq<Sig>): seq<SigView> {
    if ss == [] then [] else ViewSigs(ss[..|ss| - 1]) + [ViewSig(ss[|ss| - 1])]
  }

  function View(e: Entry): EntryView {
    EntryView(e.testId, e.start, e.end, e.result, e.flags, e.uncorrectable, e.correctable, e.capacity, ViewSigs(e.sigs))
  }

  function Views(es: seq<Entry>): seq<EntryView> {
    if es == [] then [] else [View(es[0])] + Views(es[1..])
  }

  // ---------------------------------------------------------------- the round trip

  lemma ReadsBack(b: Bytes, off: nat, v: nat, n: nat)
    requires v < Pow256(n) && off + n <= |b| && b[off..off + n] == Le(v, n)
    ensures FromLe(b, off, n) == v
  {
    FromLeOfLe(v, n);
    FromLeShift(b, off, off + n, 0, n);
  }

  lemma FrontFields(e: Entry)
    requires EntryOk(e)
    ensures var h := EncodeFront(e);
            && |h| == 20 && FromLe(h, 0, 2) == e.testId && FromLe(h, 2, 8) == e.start && FromLe(h, 10, 8) == e.end
            && h[18] == e.result && h[19] == e.flags
  {
    var h := EncodeFront(e);
    assert h[0..2] == Le(e.testId, 2) && h[2..10] == Le(e.start, 8) && h[10..18] == Le(e.end, 8);
    ReadsBack(h, 0, e.testId, 2);
    ReadsBack(h, 2, e.start, 8);
    ReadsBack(h, 10, e.end, 8);
  }

  lemma BackFields(e: Entry)
    requires EntryOk(e)
    ensures var h := EncodeBack(e);
            && |h| == 28 && FromLe(h, 0, 4) == e.uncorrectable && FromLe(h, 4, 4) == e.correctable
            && FromLe(h, 12, 8) == e.capacity && FromLe(h, 20, 4) == |e.sigs|
  {
    var h := EncodeBack(e);
    assert h[0..4] == Le(e.uncorrectable, 4) && h[4..8] == Le(e.correctable, 4);
    assert h[12..20] == Le(e.capacity, 8) && h[20..24] == Le(|e.sigs|, 4);
    ReadsBack(h, 0, e.uncorrectable, 4);
    ReadsBack(h, 4, e.correctable, 4);
    ReadsBack(h, 12, e.capacity, 8);
    ReadsBack(h, 20, |e.sigs|, 4);
  }

  lemma {:induction false} HeadFields(e: Entry)
    requires EntryOk(e)
    ensures |EncodeHead(e)| == 48
    ensures FromLe(EncodeHead(e), 0x28, 4) == |e.sigs|
    ensures HeadAt(EncodeHead(e)) == View(e).(sigs := [])
  {
    FrontFields(e);
    BackFields(e);
    var h := EncodeHead(e);
    assert h[0..20] == EncodeFront(e) && h[20..48] == EncodeBack(e);
    FromLeShift(h, 0, 20, 0, 2);
    FromLeShift(h, 0, 20, 2, 8);
    FromLeShift(h, 0, 20, 10, 8);
    FromLeShift(h, 20, 48, 0, 4);
    FromLeShift(h, 20, 48, 4, 4);
    FromLeShift(h, 20, 48, 12, 8);
    FromLeShift(h, 20, 48, 20, 4);
  }

  lemma SigFields(s: Sig)
    requires SigOk(s)
    ensures |EncodeSig(s)| == 80 && SigAt(EncodeSig(s)) == ViewSig(s)
  {
    var b := EncodeSig(s);
    assert b[0..2] == Le(s.iteration, 2) && b[2..10] == Le(s.phys, 8);
    ReadsBack(b, 0, s.iteration, 2);
    ReadsBack(b, 2, s.phys, 8);
  }

  /** One more signature behind the others. */
  lemma {:induction false} SigAppended(front: Bytes, last: Bytes)
    requires |last| == 80
    ensures SigsOf(front + last) == SigsOf(front) + [SigAt(last)]
  {
    assert (front + last)[..|front|] == front && (front + last)[|front|..] == last;
  }

  lemma {:induction false} SigsRoundTrip(ss: seq<Sig>)
    requires forall i :: 0 <= i < |ss| ==> SigOk(ss[i])
    ensures |EncodeSigs(ss)| == 80 * |ss| && SigsOf(EncodeSigs(ss)) == ViewSigs(ss)
  {
    if ss != [] {
      var n := |ss| - 1;
      SigsRoundTrip(ss[..n]);
      SigFields(ss[n]);
      SigAppended(EncodeSigs(ss[..n]), EncodeSig(ss[n]));
    }
  }

  /** The bytes of an entry that states exactly the signatures that follow it. */
  predicate Delimited(p: Bytes) { |p| >= 48 && |p| == 48 + 80 * FromLe(p, 0x28, 4) }

  lemma {:induction false} Joined(h: Bytes, ss: Bytes)
    requires |h| == 48
    ensures FromLe(h + ss, 0x28, 4) == FromLe(h, 0x28, 4)
    ensures Decode(h + ss) == HeadAt(h).(sigs := SigsOf(ss))
  {
    var b := h + ss;
    assert b[..48] == h && b[48..] == ss && b[0..48] == h;
    FromLeShift(b, 0, 48, 0x28, 4);
  }

  lemma {:induction false} EntryRoundTrip(e: Entry)
    requires EntryOk(e)
    ensures |EncodeEntry(e)| == 48 + 80 * |e.sigs|
    ensures Delimited(EncodeEntry(e)) && Decode(EncodeEntry(e)) == View(e)
  {
    HeadFields(e);
    SigsRoundTrip(e.sigs);
    Joined(EncodeHead(e), EncodeSigs(e.sigs));
  }

  /** `p` stands at `off` in the buffer. */
  predicate Holds(b: Bytes, off: nat, p: Bytes) {
    off + |p| <= |b| && forall i :: 0 <= i < |p| ==> b[off + i] == p[i]
  }

  lemma HoldsBoth(b: Bytes, off: nat, p: Bytes, q: Bytes)
    requires Holds(b, off, p + q)
    ensures Holds(b, off, p) && Holds(b, off + |p|, q)
  {
    forall i | 0 <= i < |p| ensures b[off + i] == p[i] { assert (p + q)[i] == p[i]; }
    forall i | 0 <= i < |q| ensures b[off + |p| + i] == q[i] { assert (p + q)[|p| + i] == q[i]; }
  }

  /** A delimited piece is cut off whole, whatever stands around it. */
  lemma {:induction false} PieceAt(b: Bytes, off: nat, p: Bytes)
    requires Holds(b, off, p) && Delimited(p)
    ensures PieceLength(b, off) == |p| && b[off..off + |p|] == p
  {
    assert b[off..off + |p|] == p;
    FromLeShift(b, off, off + |p|, 0x28, 4);
  }

  predicate AllDelimited(ps: seq<Bytes>) { ps == [] || (Delimited(ps[0]) && AllDelimited(ps[1..])) }

  /** The pieces stand at `off`, one behind the other, and nothing follows them but a rest too short for
      another, unless there is no room for one. */
  predicate Laid(b: Bytes, off: nat, ps: seq<Bytes>, room: nat) {
    && Holds(b, off, Concat(ps)) && AllDelimited(ps) && |ps| <= room
    && (|b| - off - |Concat(ps)| < 48 || |ps| == room)
  }

  predicate Recovered(b: Bytes, off: nat, ps: seq<Bytes>, room: nat) {
    Pieces(b, off, room) == ps && End(b, off, room) == off + |Concat(ps)|
  }

  lemma {:induction false} LaidFirst(b: Bytes, off: nat, ps: seq<Bytes>, room: nat)
    requires Laid(b, off, ps, room) && ps != []
    ensures Holds(b, off, ps[0]) && Delimited(ps[0]) && Laid(b, off + |ps[0]|, ps[1..], room - 1)
  {
    HoldsBoth(b, off, ps[0], Concat(ps[1..]));
  }

  lemma {:induction false} RecoveredFirst(b: Bytes, off: nat, ps: seq<Bytes>, room: nat)
    requires ps != [] && Holds(b, off, ps[0]) && Delimited(ps[0]) && room > 0
    requires Recovered(b, off + |ps[0]|, ps[1..], room - 1)
    ensures Recovered(b, off, ps, room)
  {
    PieceAt(b, off, ps[0]);
    FirstPiece(b, off, room, off + |ps[0]|);
    assert ps == [ps[0]] + ps[1..];
  }

  lemma {:induction false} PiecesRecovered(b: Bytes, off: nat, ps: seq<Bytes>, room: nat)
    requires Laid(b, off, ps, room)
    ensures Recovered(b, off, ps, room)
    decreases |ps|
  {
    if ps != [] {
      LaidFirst(b, off, ps, room);
      PiecesRecovered(b, off + |ps[0]|, ps[1..], room - 1);
      RecoveredFirst(b, off, ps, room);
    }
  }

  lemma {:induction false} EntriesDecode(es: seq<Entry>)
    requires forall i :: 0 <= i < |es| ==> EntryOk(es[i])
    ensures |EncodeEntries(es)| == |es| && AllDelimited(EncodeEntries(es))
    ensures DecodeAll(EncodeEntries(es)) == Views(es)
  {
    if es != [] {
      EntryRoundTrip(es[0]);
      EntriesDecode(es[1..]);
      DecodeFirst(EncodeEntry(es[0]), EncodeEntries(es[1..]));
    }
  }

  /** The bytes of a log: header, entries, and what follows the last one. */
  function Log(header: Bytes, es: seq<Entry>, tail: Bytes): Bytes { header + Concat(EncodeEntries(es)) + tail }

  /** A log of a header and at most 64 well-formed entries is recovered exactly, whatever is left behind
      them that is too short for another. */
  lemma {:induction false} LogRoundTrip(header: Bytes, es: seq<Entry>, tail: Bytes)
    requires |header| == LOG_HEADER && |es| <= MAX_ENTRIES && forall i :: 0 <= i < |es| ==> EntryOk(es[i])
    requires |tail| < 48 || |es| == MAX_ENTRIES
    ensures Report(Log(header, es, tail), LOG_HEADER, MAX_ENTRIES) == Views(es)
    ensures End(Log(header, es, tail), LOG_HEADER, MAX_ENTRIES) == LOG_HEADER + |Concat(EncodeEntries(es))|
  {
    EntriesDecode(es);
    var b, c := Log(header, es, tail), Concat(EncodeEntries(es));
    assert b[LOG_HEADER..LOG_HEADER + |c|] == c;
    PiecesRecovered(b, LOG_HEADER, EncodeEntries(es), MAX_ENTRIES);
  }

  // ---------------------------------------------------------------- logs that the walk strays from

  function PlainEntry(n: nat): Entry {
    Entry(0, 0, 0, 0, 0, 0, 0, Zeros(4), 0, Zeros(4), seq(n, i => Sig(0, 0, Zeros(70))))
  }

  lemma PlainEntryOk(n: nat)
    requires n < MOD32
    ensures EntryOk(PlainEntry(n))
  {
    assert Pow256(4) == 256 * Pow256(3) == 65536 * Pow256(2) == 0x1_0000_0000;
    assert forall i :: 0 <= i < n ==> SigOk(PlainEntry(n).sigs[i]);
  }

  /** Four entries whose last byte is the 49th before 4 GiB. */
  function LongLog(): seq<Entry> { [PlainEntry(0), PlainEntry(0), PlainEntry(0), PlainEntry(53687088)] }

  lemma LongLogLength()
    ensures forall i :: 0 <= i < 4 ==> EntryOk(LongLog()[i])
    ensures LOG_HEADER + |Concat(EncodeEntries(LongLog()))| == MOD32 - 48
  {
    var a, d := PlainEntry(0), PlainEntry(53687088);
    PlainEntryOk(0);
    PlainEntryOk(53687088);
    EntryRoundTrip(a);
    EntryRoundTrip(d);
    ConcatLengths(a, d);
  }

  lemma {:induction false} EntriesFirst(e: Entry, es: seq<Entry>)
    ensures |Concat(EncodeEntries([e] + es))| == |EncodeEntry(e)| + |Concat(EncodeEntries(es))|
  {
    assert ([e] + es)[1..] == es;
    ConcatFirst(EncodeEntry(e), EncodeEntries(es));
  }

  lemma ConcatLengths(a: Entry, d: Entry)
    ensures |Concat(EncodeEntries([a, a, a, d]))| == 3 * |EncodeEntry(a)| + |EncodeEntry(d)|
  {
    EntriesFirst(a, [a, a, d]);
    EntriesFirst(a, [a, d]);
    EntriesFirst(a, [d]);
    EntriesFirst(d, []);
    assert [a] + [a, a, d] == [a, a, a, d] && [a] + [a, d] == [a, a, d] && [a] + [d] == [a, d] && [d] + [] == [d];
  }

  ghost predicate SomeLogStrays(length: nat) { exists buf: Bytes :: |buf| == length && Strays(buf) }

  /** The walk keeps to every log of a given length if and only if the length is at least 49 short of
      4 GiB. */
  lemma StraysIff(length: nat)
    requires length < MOD32
    ensures SomeLogStrays(length) <==> length + 48 >= MOD32
  {
    if length + 48 >= MOD32 {
      LongLogLength();
      var header, tail := Zeros(LOG_HEADER), Zeros(length + 48 - MOD32);
      var buf := Log(header, LongLog(), tail);
      LogRoundTrip(header, LongLog(), tail);
      ViewsLength(LongLog());
      assert |buf| == length && Strays(buf);
    } else if buf: Bytes :| |buf| == length && Strays(buf) {
      PiecesTile(buf, LOG_HEADER, MAX_ENTRIES);
    }
  }

  lemma {:induction false} ViewsLength(es: seq<Entry>)
    ensures |Views(es)| == |es|
  {
    if es != [] { ViewsLength(es[1..]); }
  }
}
