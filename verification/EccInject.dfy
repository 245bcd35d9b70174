/** The ECC-injection command line: an option machine that accepts five address forms, and the encoding
    of the request into four words. */
module EccInject {
  import opened Wire

  const MOD32: nat := 0x1_0000_0000
  const MOD64: nat := 0x1_0000_0000_0000_0000

  // ---------------------------------------------------------------- options

  datatype Opt = Op(op: nat) | Dpa(addr: nat) | Fru(unit: nat) | Rank(unit: nat) | Off(addr: nat) | Row(sel: nat) | Codeword(sel: nat)

  function Lower(s: string): string {
    if s == [] then [] else [if 'A' <= s[0] <= 'Z' then (s[0] as int + 32) as char else s[0]] + Lower(s[1..])
  }

  function ParseOp(s: string): (op: Option<nat>)
    ensures op.Some? ==> op.value < 4
  {
    if Lower(s) == "clear" || s == "0" then Some(0)
    else if Lower(s) == "1bit" || s == "1" then Some(1)
    else if Lower(s) == "cecc" || s == "2" then Some(2)
    else if Lower(s) == "uecc" || s == "3" then Some(3)
    else None
  }

  function Below(v: Option<nat>, bound: nat): (r: Option<nat>)
    ensures r.Some? ==> r.value < bound
  {
    if v.Some? && v.value < bound then v else None
  }

  /** The option spelled by a name and its value; `u64` is the number parser of the C library. */
  function ParseOpt(name: string, value: string, u64: string -> Option<nat>): Option<Opt> {
    var v := Below(u64(value), MOD64);
    if name == "--op" then (var op := ParseOp(value); if op.Some? then Some(Op(op.value)) else None)
    else if name == "--dpa" then (if v.Some? then Some(Dpa(v.value)) else None)
    else if name == "--fru" then (var u := Below(v, 256); if u.Some? then Some(Fru(u.value)) else None)
    else if name == "--rank" then (var u := Below(v, 256); if u.Some? then Some(Rank(u.value)) else None)
    else if name == "--off" then (if v.Some? then Some(Off(v.value)) else None)
    else if name == "--row" then (var n := Below(v, MOD32); if n.Some? then Some(Row(n.value)) else None)
    else if name == "--codeword" then (var n := Below(v, MOD32); if n.Some? then Some(Codeword(n.value)) else None)
    else None
  }

  predicate OptOk(o: Opt) {
    match o
    case Op(op) => op < 4
    case Dpa(a) => a < MOD64
    case Off(a) => a < MOD64
    case Fru(u) => u < 256
    case Rank(u) => u < 256
    case Row(n) => n < MOD32
    case Codeword(n) => n < MOD32
  }

  /** `s` is the word `w`, in letters of either case. */
  predicate CaseVariant(s: string, w: string) {
    |s| == |w| && forall i :: 0 <= i < |s| ==> s[i] == w[i] || ('A' <= s[i] <= 'Z' && s[i] as int + 32 == w[i] as int)
  }

  predicate NoCapitals(w: string) { forall i :: 0 <= i < |w| ==> !('A' <= w[i] <= 'Z') }

  lemma {:induction false} LowerIs(s: string, w: string)
    requires NoCapitals(w)
    ensures Lower(s) == w <==> CaseVariant(s, w)
  {
    if s != [] && w != [] {
      LowerIs(s[1..], w[1..]);
      assert CaseVariant(s, w) <==> CaseVariant(s[..1], w[..1]) && CaseVariant(s[1..], w[1..]) by {
        if CaseVariant(s[..1], w[..1]) && CaseVariant(s[1..], w[1..]) {
          forall i | 0 <= i < |s| ensures s[i] == w[i] || ('A' <= s[i] <= 'Z' && s[i] as int + 32 == w[i] as int) {
            if i > 0 { assert s[i] == s[1..][i - 1] && w[i] == w[1..][i - 1]; }
          }
        }
      }
      assert Lower(s) == [Lower(s)[0]] + Lower(s[1..]);
      assert w == [w[0]] + w[1..];
    }
  }

  /** Which words name which op: a number, or its name in letters of either case. */
  lemma OpNames(s: string)
    ensures ParseOp(s) == Some(0) <==> s == "0" || CaseVariant(s, "clear")
    ensures ParseOp(s) == Some(1) <==> s == "1" || CaseVariant(s, "1bit")
    ensures ParseOp(s) == Some(2) <==> s == "2" || CaseVariant(s, "cecc")
    ensures ParseOp(s) == Some(3) <==> s == "3" || CaseVariant(s, "uecc")
  {
    LowerIs(s, "clear");
    LowerIs(s, "1bit");
    LowerIs(s, "cecc");
    LowerIs(s, "uecc");
    Digits(s);
  }

  lemma Digits(s: string)
    ensures Lower(s) == "clear" || Lower(s) == "1bit" || Lower(s) == "cecc" || Lower(s) == "uecc" ==> |s| > 1
    ensures Lower(s) == "clear" ==> Lower(s) != "1bit" && Lower(s) != "cecc" && Lower(s) != "uecc"
    ensures Lower(s) == "1bit" ==> Lower(s) != "cecc" && Lower(s) != "uecc"
    ensures Lower(s) == "cecc" ==> Lower(s) != "uecc"
  {
    LowerLength(s);
    assert "1bit"[0] != "cecc"[0] && "1bit"[0] != "uecc"[0] && "cecc"[0] != "uecc"[0];
    assert |"clear"| == 5 && |"1bit"| == |"cecc"| == |"uecc"| == 4;
  }

  lemma {:induction false} LowerLength(s: string)
    ensures |Lower(s)| == |s|
  {
    if s != [] { LowerLength(s[1..]); }
  }

  /** A name and a value spell an option: the name is its own, and the value is an op or a number in range. */
  predicate Spells(name: string, value: string, o: Opt, u64: string -> Option<nat>) {
    match o
    case Op(op) => name == "--op" && ParseOp(value) == Some(op)
    case Dpa(a) => name == "--dpa" && u64(value) == Some(a) && a <= 0xFFFF_FFFF_FFFF_FFFF
    case Fru(u) => name == "--fru" && u64(value) == Some(u) && u <= 255
    case Rank(u) => name == "--rank" && u64(value) == Some(u) && u <= 255
    case Off(a) => name == "--off" && u64(value) == Some(a) && a <= 0xFFFF_FFFF_FFFF_FFFF
    case Row(n) => name == "--row" && u64(value) == Some(n) && n <= 0xFFFF_FFFF
    case Codeword(n) => name == "--codeword" && u64(value) == Some(n) && n <= 0xFFFF_FFFF
  }

  lemma ParseOptIff(name: string, value: string, o: Opt, u64: string -> Option<nat>)
    ensures ParseOpt(name, value, u64) == Some(o) <==> Spells(name, value, o, u64)
  {
    NamesDiffer();
  }

  lemma NamesDiffer()
    ensures "--op" != "--dpa" && "--op" != "--fru" && "--op" != "--rank" && "--op" != "--off" && "--op" != "--row"
    ensures "--dpa" != "--fru" && "--dpa" != "--rank" && "--dpa" != "--off" && "--dpa" != "--row"
    ensures "--fru" != "--rank" && "--fru" != "--off" && "--fru" != "--row"
    ensures "--rank" != "--off" && "--rank" != "--row" && "--off" != "--row"
    ensures |"--codeword"| == 10 && |"--op"| == 4 && |"--dpa"| == |"--fru"| == |"--off"| == |"--row"| == 5 && |"--rank"| == 6
  {
    assert "--dpa"[2] != "--fru"[2] && "--dpa"[2] != "--off"[2] && "--dpa"[2] != "--row"[2];
    assert "--fru"[2] != "--off"[2] && "--fru"[2] != "--row"[2] && "--off"[2] != "--row"[2];
  }

  predicate SpelledAt(args: seq<string>, opts: seq<Opt>, i: nat, u64: string -> Option<nat>)
    requires i < |opts| && |args| == 2 * |opts|
  {
    Spells(args[2 * i], args[2 * i + 1], opts[i], u64)
  }

  /** An argument list is a list of options exactly when it spells them in order, each in two arguments. */
  lemma {:induction false} OptionsIff(args: seq<string>, opts: seq<Opt>, u64: string -> Option<nat>)
    ensures Options(args, u64) == Some(opts)
       <==> |args| == 2 * |opts| && forall i :: 0 <= i < |opts| ==> SpelledAt(args, opts, i, u64)
    decreases |args|
  {
    if |args| >= 2 {
      if opts == [] {
      } else {
        ParseOptIff(args[0], args[1], opts[0], u64);
        OptionsIff(args[2..], opts[1..], u64);
        assert opts == [opts[0]] + opts[1..];
        if |args| == 2 * |opts| { SpelledRest(args, opts, u64); }
      }
    }
  }

  lemma SpelledRest(args: seq<string>, opts: seq<Opt>, u64: string -> Option<nat>)
    requires |args| == 2 * |opts| && opts != []
    ensures (forall i :: 0 <= i < |opts| ==> SpelledAt(args, opts, i, u64))
       <==> Spells(args[0], args[1], opts[0], u64) && forall i :: 0 <= i < |opts[1..]| ==> SpelledAt(args[2..], opts[1..], i, u64)
  {
    assert SpelledAt(args, opts, 0, u64) <==> Spells(args[0], args[1], opts[0], u64);
    forall i | 0 <= i < |opts| - 1 ensures SpelledAt(args[2..], opts[1..], i, u64) <==> SpelledAt(args, opts, i + 1, u64) {
    }
    if Spells(args[0], args[1], opts[0], u64) && forall i :: 0 <= i < |opts[1..]| ==> SpelledAt(args[2..], opts[1..], i, u64) {
      forall i | 0 <= i < |opts| ensures SpelledAt(args, opts, i, u64) {
        if i > 0 { assert SpelledAt(args[2..], opts[1..], i - 1, u64); }
      }
    }
    if forall i :: 0 <= i < |opts| ==> SpelledAt(args, opts, i, u64) {
      forall i | 0 <= i < |opts[1..]| ensures SpelledAt(args[2..], opts[1..], i, u64) {
        assert SpelledAt(args, opts, i + 1, u64);
      }
    }
  }

  /** An argument list is names and values in turn; anything else is a usage error. */
  function Options(args: seq<string>, u64: string -> Option<nat>): Option<seq<Opt>> {
    if args == [] then Some([])
    else if |args| == 1 then None
    else
      var o := ParseOpt(args[0], args[1], u64);
      var rest := Options(args[2..], u64);
      if o.Some? && rest.Some? then Some([o.value] + rest.value) else None
  }

  // ---------------------------------------------------------------- the option machine

  datatype Mode = NoMode | DpaMode | FruMode | RankMode | RowMode | CwMode

  datatype State = State(op: Option<nat>, mode: Mode, hasRank: bool, hasOff: bool, hasSel: bool,
                         unit: nat, sel: nat, addr: nat)

  const START := State(None, NoMode, false, false, false, 0, 0, 0)

  /** One option, or a conflict. */
  function Step(s: State, o: Opt): Option<State> {
    match o
    case Op(op) => Some(s.(op := Some(op)))
    case Dpa(a) =>
      if s.mode != NoMode || s.hasRank || s.hasOff || s.hasSel then None else Some(s.(mode := DpaMode, addr := a))
    case Fru(u) =>
      if s.mode != NoMode || s.hasRank || s.hasSel then None else Some(s.(mode := FruMode, unit := u))
    case Rank(u) =>
      if s.hasRank || s.mode == DpaMode || s.mode == FruMode then None else Some(s.(hasRank := true, unit := u))
    case Off(a) =>
      if s.mode == DpaMode || s.hasOff || s.hasSel then None else Some(s.(hasOff := true, addr := a))
    case Row(n) =>
      if s.mode != NoMode || s.hasOff || s.hasSel then None else Some(s.(hasSel := true, mode := RowMode, sel := n))
    case Codeword(n) =>
      if s.mode != NoMode || s.hasOff || s.hasSel then None else Some(s.(hasSel := true, mode := CwMode, sel := n))
  }

  function Run(opts: seq<Opt>): Option<State> {
    if opts == [] then Some(START)
    else
      var s := Run(opts[..|opts| - 1]);
      if s.None? then None else Step(s.value, opts[|opts| - 1])
  }

  /** The final check: the mode the options amount to, if they are complete. */
  function Finish(s: State): Option<State> {
    var s := if s.op.Some? && s.hasRank && s.hasOff && !s.hasSel && s.mode == NoMode then s.(mode := RankMode) else s;
    if s.op.None?
       || (s.mode == DpaMode && (s.hasRank || s.hasOff || s.hasSel))
       || (s.mode == FruMode && (!s.hasOff || s.hasRank || s.hasSel))
       || s.mode == NoMode
       || ((s.mode == RowMode || s.mode == CwMode) && (!s.hasRank || s.hasOff))
    then None else Some(s)
  }

  // ---------------------------------------------------------------- the documented combinations

  /** How often each kind of address option occurs; row and codeword are one kind. */
  datatype Counts = Counts(dpa: nat, fru: nat, rank: nat, off: nat, sel: nat)

  function Bump(c: Counts, o: Opt): Counts {
    match o
    case Op(_) => c
    case Dpa(_) => c.(dpa := c.dpa + 1)
    case Fru(_) => c.(fru := c.fru + 1)
    case Rank(_) => c.(rank := c.rank + 1)
    case Off(_) => c.(off := c.off + 1)
    case Row(_) => c.(sel := c.sel + 1)
    case Codeword(_) => c.(sel := c.sel + 1)
  }

  function Count(opts: seq<Opt>): Counts {
    if opts == [] then Counts(0, 0, 0, 0, 0) else Bump(Count(opts[..|opts| - 1]), opts[|opts| - 1])
  }

  /** One of --dpa, --fru --off, --rank --off, --rank --row, --rank --codeword. */
  predicate Documented(c: Counts) {
    c == Counts(1, 0, 0, 0, 0) || c == Counts(0, 1, 0, 1, 0) || c == Counts(0, 0, 1, 1, 0) || c == Counts(0, 0, 1, 0, 1)
  }

  /** Part of one of them. */
  predicate Partial(c: Counts) {
    || (c.dpa <= 1 && c.fru == 0 && c.rank == 0 && c.off == 0 && c.sel == 0)
    || (c.dpa == 0 && c.fru <= 1 && c.rank == 0 && c.off <= 1 && c.sel == 0)
    || (c.dpa == 0 && c.fru == 0 && c.rank <= 1 && c.off <= 1 && c.sel == 0)
    || (c.dpa == 0 && c.fru == 0 && c.rank <= 1 && c.off == 0 && c.sel <= 1)
  }

  predicate HasOp(opts: seq<Opt>) { exists i :: 0 <= i < |opts| && opts[i].Op? }

  function One(b: bool): nat { if b then 1 else 0 }

  /** The state of the machine says which options it has seen. */
  predicate Tracks(s: State, c: Counts) {
    && c == Counts(One(s.mode == DpaMode), One(s.mode == FruMode), One(s.hasRank), One(s.hasOff), One(s.hasSel))
    && (s.hasSel <==> s.mode == RowMode || s.mode == CwMode)
    && s.mode != RankMode
  }

  /** The machine goes on exactly as long as the options seen so far are part of a combination. */
  lemma {:induction false} RunTracks(opts: seq<Opt>)
    ensures Run(opts).Some? <==> Partial(Count(opts))
    ensures Run(opts).Some? ==> Tracks(Run(opts).value, Count(opts))
    ensures Run(opts).Some? ==> (Run(opts).value.op.Some? <==> HasOp(opts))
  {
    if opts != [] {
      var front, last := opts[..|opts| - 1], opts[|opts| - 1];
      RunTracks(front);
      OpLast(opts);
    }
  }

  lemma OpLast(opts: seq<Opt>)
    requires opts != []
    ensures HasOp(opts) <==> HasOp(opts[..|opts| - 1]) || opts[|opts| - 1].Op?
  {
    var front := opts[..|opts| - 1];
    if HasOp(front) {
      var i :| 0 <= i < |front| && front[i].Op?;
      assert opts[i].Op?;
    }
    if HasOp(opts) && !opts[|opts| - 1].Op? {
      var i :| 0 <= i < |opts| && opts[i].Op?;
      assert front[i].Op?;
    }
  }

  /** What the whole option list amounts to. */
  function Accept(opts: seq<Opt>): Option<State> {
    var s := Run(opts);
    if s.None? then None else Finish(s.value)
  }

  /** A list of valid options is accepted exactly when it has an op and its address options form one of
      the documented combinations, in any order. */
  lemma AcceptedIff(opts: seq<Opt>)
    ensures Accept(opts).Some? <==> HasOp(opts) && Documented(Count(opts))
  {
    RunTracks(opts);
  }

  // ---------------------------------------------------------------- what the options name

  /** The place a request injects at. */
  datatype Target = AtDpa(addr: nat) | AtFru(unit: nat, addr: nat) | AtRank(unit: nat, addr: nat) | AtDram(unit: nat, index: nat)

  /** The options name this target, wherever in the list they stand. */
  predicate Names(opts: seq<Opt>, t: Target) {
    match t
    case AtDpa(a) => Dpa(a) in opts
    case AtFru(u, a) => Fru(u) in opts && Off(a) in opts
    case AtRank(u, a) => Rank(u) in opts && Off(a) in opts
    case AtDram(u, n) => Rank(u) in opts && (Row(n) in opts || Codeword(n) in opts)
  }

  /** The last op wins. */
  function LastOp(opts: seq<Opt>): Option<nat> {
    if opts == [] then None
    else if opts[|opts| - 1].Op? then Some(opts[|opts| - 1].op)
    else LastOp(opts[..|opts| - 1])
  }

  /** An address option the machine took is in its state. */
  predicate Holds(s: State, o: Opt) {
    match o
    case Op(_) => true
    case Dpa(a) => s.mode == DpaMode && s.addr == a
    case Fru(u) => s.mode == FruMode && s.unit == u
    case Rank(u) => s.hasRank && s.unit == u
    case Off(a) => s.hasOff && s.addr == a
    case Row(n) => s.mode == RowMode && s.sel == n
    case Codeword(n) => s.mode == CwMode && s.sel == n
  }

  /** ... and nothing else is. */
  predicate Sourced(s: State, opts: seq<Opt>) {
    && (s.mode == DpaMode ==> Dpa(s.addr) in opts)
    && (s.mode == FruMode ==> Fru(s.unit) in opts)
    && (s.hasRank ==> Rank(s.unit) in opts)
    && (s.hasOff ==> Off(s.addr) in opts)
    && (s.mode == RowMode ==> Row(s.sel) in opts)
    && (s.mode == CwMode ==> Codeword(s.sel) in opts)
  }

  predicate AllHeld(s: State, opts: seq<Opt>) { forall i :: 0 <= i < |opts| ==> Holds(s, opts[i]) }

  predicate AllOk(opts: seq<Opt>) { forall i :: 0 <= i < |opts| ==> OptOk(opts[i]) }

  /** A step keeps the options already held. */
  lemma StepKeeps(s: State, o: Opt, p: Opt, c: Counts)
    requires Tracks(s, c) && Step(s, o).Some? && Holds(s, p)
    ensures Holds(Step(s, o).value, p)
  {
  }

  lemma StepSourced(s: State, front: seq<Opt>, o: Opt, c: Counts)
    requires Tracks(s, c) && Step(s, o).Some? && Sourced(s, front)
    ensures Sourced(Step(s, o).value, front + [o])
  {
  }

  lemma StepHeld(s: State, front: seq<Opt>, o: Opt, c: Counts)
    requires Tracks(s, c) && Step(s, o).Some? && AllHeld(s, front)
    ensures AllHeld(Step(s, o).value, front + [o])
  {
    forall i | 0 <= i < |front| ensures Holds(Step(s, o).value, front[i]) {
      StepKeeps(s, o, front[i], c);
    }
  }

  lemma RunLast(front: seq<Opt>, o: Opt)
    ensures Run(front + [o]) == if Run(front).Some? then Step(Run(front).value, o) else None
    ensures LastOp(front + [o]) == if o.Op? then Some(o.op) else LastOp(front)
  {
    assert (front + [o])[..|front|] == front;
  }

  predicate Knows(s: State, opts: seq<Opt>) {
    AllHeld(s, opts) && Sourced(s, opts) && s.op == LastOp(opts)
  }

  lemma StepKnows(s: State, front: seq<Opt>, o: Opt, c: Counts)
    requires Tracks(s, c) && Step(s, o).Some? && Knows(s, front)
    ensures Knows(Step(s, o).value, front + [o])
  {
    StepSourced(s, front, o, c);
    StepHeld(s, front, o, c);
    RunLast(front, o);
  }

  lemma {:induction false} RunHolds(opts: seq<Opt>)
    requires Run(opts).Some?
    ensures Knows(Run(opts).value, opts)
  {
    if opts != [] {
      var front, last := opts[..|opts| - 1], opts[|opts| - 1];
      RunHolds(front);
      RunTracks(front);
      var s := Run(front).value;
      assert Run(opts) == Step(s, last);
      assert Knows(Step(s, last).value, opts) by {
        assert opts == front + [last];
        StepKnows(s, front, last, Count(front));
      }
    }
  }

  function TargetOf(s: State): Target {
    match s.mode
    case DpaMode => AtDpa(s.addr)
    case FruMode => AtFru(s.unit, s.addr)
    case RankMode => AtRank(s.unit, s.addr)
    case _ => AtDram(s.unit, s.sel)
  }

  /** What an accepted list says: its last op, and the one target its options name. */
  lemma AcceptedMeans(opts: seq<Opt>)
    requires HasOp(opts) && Documented(Count(opts))
    ensures Accept(opts).Some? && Accept(opts).value.op == LastOp(opts)
    ensures Names(opts, TargetOf(Accept(opts).value))
    ensures forall t :: Names(opts, t) ==> t == TargetOf(Accept(opts).value)
  {
    RunTracks(opts);
    RunHolds(opts);
    forall t | Names(opts, t) ensures t == TargetOf(Accept(opts).value) {
      OnlyTarget(opts, t);
    }
  }

  lemma OnlyTarget(opts: seq<Opt>, t: Target)
    requires HasOp(opts) && Documented(Count(opts)) && Names(opts, t)
    requires Accept(opts).Some?
    ensures t == TargetOf(Accept(opts).value)
  {
    RunTracks(opts);
    RunHolds(opts);
  }

  /** Each option adds the same to the counts, wherever it stands. */
  lemma {:induction false} CountWithout(opts: seq<Opt>, k: nat)
    requires k < |opts|
    ensures Count(opts) == Bump(Count(Without(opts, k)), opts[k])
  {
    var n := |opts| - 1;
    if k == n {
      assert Without(opts, n) == opts[..n];
    } else {
      var less := Without(opts[..n], k);
      CountWithout(opts[..n], k);
      assert Without(opts, k) == less + [opts[n]];
      CountLast(less, opts[n]);
      BumpSwap(Count(less), opts[k], opts[n]);
    }
  }

  lemma CountLast(front: seq<Opt>, o: Opt)
    ensures Count(front + [o]) == Bump(Count(front), o)
  {
    assert (front + [o])[..|front|] == front;
  }

  lemma BumpSwap(c: Counts, a: Opt, b: Opt)
    ensures Bump(Bump(c, a), b) == Bump(Bump(c, b), a)
  {
  }

  lemma Cancel<T>(a: multiset<T>, b: multiset<T>, x: T)
    requires a + multiset{x} == b + multiset{x}
    ensures a == b
  {
    forall y ensures a[y] == b[y] { assert (a + multiset{x})[y] == (b + multiset{x})[y]; }
  }

  lemma MultisetWithout(opts: seq<Opt>, k: nat)
    requires k < |opts|
    ensures multiset(opts) == multiset(Without(opts, k)) + multiset{opts[k]}
  {
    assert opts == opts[..k] + [opts[k]] + opts[k + 1..];
  }

  lemma {:induction false} CountAnyOrder(opts: seq<Opt>, other: seq<Opt>)
    requires multiset(opts) == multiset(other)
    ensures Count(opts) == Count(other)
  {
    if opts == [] {
      assert |multiset(other)| == 0;
    } else {
      var n := |opts| - 1;
      var last := opts[n];
      assert last in multiset(other);
      var k :| 0 <= k < |other| && other[k] == last;
      MultisetWithout(opts, n);
      MultisetWithout(other, k);
      assert Without(opts, n) == opts[..n];
      Cancel(multiset(opts[..n]), multiset(Without(other, k)), last);
      CountAnyOrder(opts[..n], Without(other, k));
      CountWithout(other, k);
    }
  }

  lemma SameOptions(opts: seq<Opt>, other: seq<Opt>)
    requires multiset(opts) == multiset(other)
    ensures (forall o :: o in opts <==> o in other) && (HasOp(opts) <==> HasOp(other))
  {
    assert forall o :: o in opts <==> o in multiset(opts);
    assert forall o :: o in other <==> o in multiset(other);
    if HasOp(opts) {
      var i :| 0 <= i < |opts| && opts[i].Op?;
      assert opts[i] in other;
    }
    if HasOp(other) {
      var i :| 0 <= i < |other| && other[i].Op?;
      assert other[i] in opts;
    }
  }

  /** The order of the options does not matter: of two lists with the same options, both are accepted or
      neither is, and they ask for the same target, and for the same op unless a different one comes
      last. */
  lemma AnyOrder(opts: seq<Opt>, other: seq<Opt>)
    requires multiset(opts) == multiset(other)
    ensures Accept(opts).Some? <==> Accept(other).Some?
    ensures Accept(opts).Some? ==> TargetOf(Accept(opts).value) == TargetOf(Accept(other).value)
    ensures Accept(opts).Some? ==> (Accept(opts).value.op == Accept(other).value.op <==> LastOp(opts) == LastOp(other))
  {
    CountAnyOrder(opts, other);
    SameOptions(opts, other);
    AcceptedIff(opts);
    AcceptedIff(other);
    if Accept(opts).Some? {
      AcceptedMeans(opts);
      AcceptedMeans(other);
      assert Names(other, TargetOf(Accept(opts).value));
    }
  }

  // ---------------------------------------------------------------- the command line

  /** Handles the option at hand: its conflicts first, then its value. */
  method TakeOption(s: State, name: string, value: string, u64: string -> Option<nat>) returns (r: Option<State>)
    ensures r == match ParseOpt(name, value, u64) case None => None case Some(o) => Step(s, o)
  {
    var number := Below(u64(value), MOD64);
    if name == "--op" {
      var op := ParseOp(value);
      if op.None? { return None; }
      return Some(s.(op := op));
    } else if name == "--dpa" {
      if s.mode != NoMode || s.hasRank || s.hasOff || s.hasSel { return None; }
      if number.None? { return None; }
      return Some(s.(mode := DpaMode, addr := number.value));
    } else if name == "--fru" {
      if s.mode != NoMode || s.hasRank || s.hasSel { return None; }
      if number.None? || number.value > 0xFF { return None; }
      return Some(s.(mode := FruMode, unit := number.value));
    } else if name == "--rank" {
      if s.hasRank || s.mode == DpaMode || s.mode == FruMode { return None; }
      if number.None? || number.value > 0xFF { return None; }
      return Some(s.(hasRank := true, unit := number.value));
    } else if name == "--off" {
      if s.mode == DpaMode || s.hasOff || s.hasSel { return None; }
      if number.None? { return None; }
      return Some(s.(hasOff := true, addr := number.value));
    } else if name == "--row" || name == "--codeword" {
      var kind := if name[2] == 'r' then RowMode else CwMode;
      if s.mode != NoMode || s.hasOff || s.hasSel { return None; }
      if number.None? || number.value > 0xFFFF_FFFF { return None; }
      return Some(s.(hasSel := true, mode := kind, sel := number.value));
    } else {
      return None;
    }
  }

  function After(done: seq<Opt>, rest: Option<seq<Opt>>): Option<seq<Opt>> {
    if rest.Some? then Some(done + rest.value) else None
  }

  lemma AfterEnds(done: seq<Opt>, rest: Option<seq<Opt>>)
    ensures After([], rest) == rest && After(done, Some([])) == Some(done)
  {
    assert rest.Some? ==> [] + rest.value == rest.value;
    assert done + [] == done;
  }

  function RunAll(opts: Option<seq<Opt>>): Option<State> { if opts.Some? then Run(opts.value) else None }

  /** A conflict is final. */
  lemma {:induction false} RunStopped(front: seq<Opt>, rest: seq<Opt>)
    requires Run(front).None?
    ensures Run(front + rest).None?
  {
    if rest == [] {
      assert front + rest == front;
    } else {
      var n := |rest| - 1;
      RunStopped(front, rest[..n]);
      RunLast(front + rest[..n], rest[n]);
      assert front + rest == front + rest[..n] + [rest[n]];
    }
  }

  /** An option moves from the arguments to the options done. */
  lemma OptionDone(args: seq<string>, a: nat, u64: string -> Option<nat>, done: seq<Opt>, s: State, o: Opt)
    requires a + 1 < |args| && ParseOpt(args[a], args[a + 1], u64) == Some(o)
    requires Run(done) == Some(s)
    ensures After(done, Options(args[a..], u64)) == After(done + [o], Options(args[a + 2..], u64))
    ensures Run(done + [o]) == Step(s, o)
    ensures Step(s, o).None? ==> RunAll(After(done, Options(args[a..], u64))).None?
  {
    assert args[a..][2..] == args[a + 2..];
    RunLast(done, o);
    var rest := Options(args[a + 2..], u64);
    if rest.Some? {
      assert done + ([o] + rest.value) == done + [o] + rest.value;
      if Step(s, o).None? {
        RunStopped(done + [o], rest.value);
      }
    }
  }

  /** The option loop, over the arguments after the command name. */
  method ParseArgs(args: seq<string>, u64: string -> Option<nat>) returns (r: Option<State>)
    ensures r == RunAll(Options(args, u64))
  {
    var s, a := START, 0;
    ghost var done: seq<Opt> := [];
    assert args[0..] == args;
    AfterEnds(done, Options(args, u64));
    while a < |args|
      invariant 0 <= a <= |args|
      invariant Run(done) == Some(s)
      invariant After(done, Options(args[a..], u64)) == Options(args, u64)
    {
      if a + 1 == |args| { return None; }
      var next := TakeOption(s, args[a], args[a + 1], u64);
      ghost var o := ParseOpt(args[a], args[a + 1], u64);
      if o.Some? {
        OptionDone(args, a, u64, done, s, o.value);
        done := done + [o.value];
      }
      if next.None? { return None; }
      s, a := next.value, a + 2;
    }
    AfterEnds(done, None);
    r := Some(s);
  }

  // ---------------------------------------------------------------- the request

  /** The four argument words. */
  datatype Request = Request(arg1: nat, arg2: nat, arg3: nat, arg4: nat)

  predicate TargetOk(t: Target) {
    match t
    case AtDpa(a) => a < MOD64
    case AtFru(u, a) => u < 256 && a < MOD64
    case AtRank(u, a) => u < 256 && a < MOD64
    case AtDram(u, n) => u < 256 && n < MOD32
  }

  function Align64(a: nat): nat { a - a % 64 }

  function Aligned(t: Target): Target {
    match t
    case AtDpa(a) => AtDpa(Align64(a))
    case AtFru(u, a) => AtFru(u, Align64(a))
    case AtRank(u, a) => AtRank(u, Align64(a))
    case AtDram(_, _) => t
  }

  /** How the firmware reads the words: bit 4 of the first selects a granularity, which is in bits 8 to
      10; the op is in the two low bits. */
  function Decode(r: Request): (nat, Target) {
    var op, granular, gran := r.arg1 % 4, r.arg1 / 16 % 2 == 1, r.arg1 / 256 % 8;
    var address := r.arg3 * 0x1_0000_0000 + r.arg2;
    if !granular then (op, AtDpa(address))
    else if gran == 1 then (op, AtFru(r.arg4, address))
    else if gran == 2 then (op, AtRank(r.arg4, address))
    else (op, AtDram(r.arg4, r.arg2))
  }

  /** All four words are 32 bits wide, and a DRAM request leaves the third zero. */
  predicate WordsOk(r: Request) {
    && r.arg1 < MOD32 && r.arg2 < MOD32 && r.arg3 < MOD32 && r.arg4 < 256
    && (r.arg1 / 256 % 8 == 3 ==> r.arg3 == 0)
  }

  /** The words of an op at a target, in numbers. */
  predicate WordsAre(r: Request, op: nat, t: Target) {
    match t
    case AtDpa(a) => r.arg1 == op && r.arg2 + 0x1_0000_0000 * r.arg3 == 64 * (a / 64) && r.arg4 == 0
    case AtFru(u, a) => r.arg1 == 0x110 + op && r.arg2 + 0x1_0000_0000 * r.arg3 == 64 * (a / 64) && r.arg4 == u
    case AtRank(u, a) => r.arg1 == 0x210 + op && r.arg2 + 0x1_0000_0000 * r.arg3 == 64 * (a / 64) && r.arg4 == u
    case AtDram(u, n) => r == Request(0x310 + op, n, 0, u)
  }

  /** Builds the words; the fields of the first do not overlap, so their union is a sum. */
  method BuildRequest(s: State) returns (r: Request)
    requires s.op.Some? && s.op.value < 4 && s.mode != NoMode && TargetOk(TargetOf(s))
    ensures WordsOk(r) && Decode(r) == (s.op.value, Aligned(TargetOf(s)))
    ensures WordsAre(r, s.op.value, TargetOf(s))
  {
    var op := s.op.value;
    if s.mode == RowMode || s.mode == CwMode {
      r := Request(0x10 + op + 3 * 256, s.sel, 0, s.unit);
    } else {
      var addr := s.addr - s.addr % 64;
      var low, high := addr % 0x1_0000_0000, addr / 0x1_0000_0000;
      if s.mode == DpaMode {
        r := Request(op, low, high, 0);
      } else {
        var gran := if s.mode == FruMode then 1 else 2;
        r := Request(0x10 + op + gran * 256, low, high, s.unit);
      }
    }
  }

  /** The values of parsed options are in range. */
  lemma {:induction false} OptionsOk(args: seq<string>, u64: string -> Option<nat>)
    requires Options(args, u64).Some?
    ensures AllOk(Options(args, u64).value)
  {
    if args != [] {
      OptionsOk(args[2..], u64);
    }
  }

  lemma {:induction false} LastOpOk(opts: seq<Opt>)
    requires AllOk(opts)
    ensures LastOp(opts).Some? <==> HasOp(opts)
    ensures LastOp(opts).Some? ==> LastOp(opts).value < 4
  {
    if opts != [] {
      OpLast(opts);
      LastOpOk(opts[..|opts| - 1]);
      assert OptOk(opts[|opts| - 1]);
    }
  }

  lemma NamedOk(opts: seq<Opt>, t: Target)
    requires AllOk(opts) && Names(opts, t)
    ensures TargetOk(t)
  {
  }

  /** The words ask for the last op at the target the options name. */
  ghost predicate Asks(r: Request, opts: seq<Opt>) {
    LastOp(opts).Some? &&
    exists t :: Names(opts, t) && Decode(r) == (LastOp(opts).value, Aligned(t)) && WordsAre(r, LastOp(opts).value, t)
  }

  /** The command line to the request. It is accepted exactly when every argument parses, there is an op
      and the address options form a documented combination; what is sent asks for the last op at the
      one target that the options name. */
  method EccRmwInject(args: seq<string>, u64: string -> Option<nat>) returns (r: Option<Request>)
    ensures var opts := Options(args, u64);
            r.Some? <==> opts.Some? && HasOp(opts.value) && Documented(Count(opts.value))
    ensures r.Some? ==> WordsOk(r.value) && Asks(r.value, Options(args, u64).value)
  {
    var parsed := ParseArgs(args, u64);
    if parsed.None? {
      ghost var opts := Options(args, u64);
      assert opts.Some? ==> Accept(opts.value).None?;
      if opts.Some? { AcceptedIff(opts.value); }
      return None;
    }
    ghost var opts := Options(args, u64).value;
    AcceptedIff(opts);
    var s := parsed.value;
    if s.op.Some? && s.hasRank && s.hasOff && !s.hasSel && s.mode == NoMode {
      s := s.(mode := RankMode);
    }
    if s.op.None?
       || (s.mode == DpaMode && (s.hasRank || s.hasOff || s.hasSel))
       || (s.mode == FruMode && (!s.hasOff || s.hasRank || s.hasSel))
       || s.mode == NoMode
       || ((s.mode == RowMode || s.mode == CwMode) && (!s.hasRank || s.hasOff))
    {
      return None;
    }
    AcceptedMeans(opts);
    OptionsOk(args, u64);
    LastOpOk(opts);
    NamedOk(opts, TargetOf(s));
    var words := BuildRequest(s);
    r := Some(words);
  }

  /** Different orders are different words: up to the alignment of the address, and row and codeword,
      which share one code, the words say everything. */
  lemma WordsDistinguish(r: Request, opts: seq<Opt>, q: Request, other: seq<Opt>, t: Target, u: Target)
    requires HasOp(opts) && Documented(Count(opts)) && Asks(r, opts) && Names(opts, t)
    requires HasOp(other) && Documented(Count(other)) && Asks(q, other) && Names(other, u)
    requires r == q
    ensures LastOp(opts) == LastOp(other) && Aligned(t) == Aligned(u)
  {
    AcceptedMeans(opts);
    AcceptedMeans(other);
  }
}
