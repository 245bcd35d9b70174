/** The endpoint registry of a context, and the file descriptors its endpoints hold. */
module Registry {
  import opened Wire

  const MOCK_MAGIC: nat := 0x4D4F_434B   // the word that marks a mock transport

  /** The descriptor table. A descriptor stands for one successful open; closing it is final, and only
      an open one may be closed. */
  class Kernel {
    var next: nat
    var open: set<int>
    ghost var closed: set<int>

    ghost predicate Valid()
      reads this
    {
      open !! closed && forall d :: d in open || d in closed <==> 0 <= d < next
    }

    constructor ()
      ensures Valid() && open == {}
    {
      next, open, closed := 0, {}, {};
    }

    /** socket() or open(): a new descriptor, or -1. */
    method Open(ok: bool) returns (fd: int)
      requires Valid()
      modifies this
      ensures Valid() && closed == old(closed)
      ensures ok ==> fd >= 0 && fd !in old(open) && fd !in closed && open == old(open) + {fd}
      ensures !ok ==> fd == -1 && open == old(open)
    {
      if !ok { return -1; }
      fd := next;
      next, open := next + 1, open + {fd};
    }

    method Close(fd: int)
      requires Valid() && fd in open
      modifies this
      ensures Valid() && open == old(open) - {fd} && closed == old(closed) + {fd}
    {
      open, closed := open - {fd}, closed + {fd};
    }
  }

  datatype Mctp = Mctp(nid: nat, eid: byte, sd: int, fmapiSd: int)

  datatype Endpoint = Endpoint(mctp: Option<Mctp>, fd: int, devname: Option<string>, hasFmapi: bool) {
    /** The library takes the first word of the transport state for the mock's mark; an MCTP transport
        starts with its network id. What follows is then read as the mock's response list, although
        it holds two socket numbers. */
    predicate IsMock() { mctp.Some? && mctp.value.nid == MOCK_MAGIC }

    /** How often an endpoint holds descriptor `d`: as its socket, as the second socket while FM-API
        is on, or as its device file. */
    function Holds(d: int): (n: nat)
    {
      if mctp.Some? then
        (if mctp.value.sd == d then 1 else 0) + (if hasFmapi && mctp.value.fmapiSd == d then 1 else 0)
      else if fd >= 0 && fd == d then 1 else 0
    }
  }

  const BLANK: Endpoint := Endpoint(None, -1, None, false)

  predicate SameTarget(a: Endpoint, b: Endpoint) {
    || (a.mctp.Some? && b.mctp.Some? && a.mctp.value.nid == b.mctp.value.nid && a.mctp.value.eid == b.mctp.value.eid)
    || (a.devname.Some? && a.devname == b.devname)
  }

  predicate Unshared(eps: seq<Endpoint>) {
    forall i, j :: 0 <= i < j < |eps| ==> !SameTarget(eps[i], eps[j])
  }

  // ---------------------------------------------------------------- descriptor accounts

  /** How often the endpoints of a list hold `d`. */
  function HeldBy(eps: seq<Endpoint>, d: int): nat {
    if eps == [] then 0 else eps[0].Holds(d) + HeldBy(eps[1..], d)
  }

  lemma {:induction false} HeldAfterRemoval(eps: seq<Endpoint>, i: nat, d: int)
    requires i < |eps|
    ensures HeldBy(eps, d) == HeldBy(Without(eps, i), d) + eps[i].Holds(d)
  {
    if i == 0 {
      assert Without(eps, 0) == eps[1..];
    } else {
      HeldAfterRemoval(eps[1..], i - 1, d);
      assert Without(eps, i)[1..] == Without(eps[1..], i - 1);
    }
  }

  lemma {:induction false} HeldAfterUpdate(eps: seq<Endpoint>, i: nat, e: Endpoint, d: int)
    requires i < |eps|
    ensures HeldBy(eps[i := e], d) + eps[i].Holds(d) == HeldBy(eps, d) + e.Holds(d)
  {
    if i == 0 {
      assert eps[0 := e][1..] == eps[1..];
    } else {
      HeldAfterUpdate(eps[1..], i - 1, e, d);
      assert eps[i := e][1..] == eps[1..][i - 1 := e];
    }
  }

  function One(b: bool): nat { if b then 1 else 0 }

  /** An open descriptor is held exactly once, a closed one never. */
  ghost predicate Balanced(open: set<int>, eps: seq<Endpoint>) {
    forall d :: HeldBy(eps, d) == One(d in open)
  }

  /** Changing one endpoint balances when the table changes by what it took and gave up. */
  lemma UpdateBalances(open: set<int>, open': set<int>, eps: seq<Endpoint>, i: nat, e: Endpoint)
    requires i < |eps| && Balanced(open, eps)
    requires forall d :: e.Holds(d) - eps[i].Holds(d) == One(d in open') - One(d in open)
    ensures Balanced(open', eps[i := e])
  {
    forall d ensures HeldBy(eps[i := e], d) == One(d in open') {
      HeldAfterUpdate(eps, i, e, d);
    }
  }

  lemma AddBalances(open: set<int>, eps: seq<Endpoint>)
    requires Balanced(open, eps)
    ensures Balanced(open, [BLANK] + eps)
  {
    assert ([BLANK] + eps)[1..] == eps;
  }

  /** What an endpoint of a balanced list holds is open, and held once. */
  lemma HeldIsOpen(open: set<int>, eps: seq<Endpoint>, i: nat, d: int)
    requires i < |eps| && Balanced(open, eps)
    ensures eps[i].Holds(d) <= 1 && (eps[i].Holds(d) == 1 ==> d in open)
  {
    HeldAfterRemoval(eps, i, d);
  }

  lemma RemovalBalances(open: set<int>, open': set<int>, eps: seq<Endpoint>, i: nat)
    requires i < |eps| && Balanced(open, eps)
    requires forall d :: One(d in open') == One(d in open) - eps[i].Holds(d)
    ensures Balanced(open', Without(eps, i))
  {
    forall d ensures HeldBy(Without(eps, i), d) == One(d in open') {
      HeldAfterRemoval(eps, i, d);
    }
  }

  /** The endpoints determine the descriptor table. */
  lemma OneTable(open: set<int>, open': set<int>, eps: seq<Endpoint>)
    requires Balanced(open, eps) && Balanced(open', eps)
    ensures open == open'
  {
    forall d ensures d in open <==> d in open' {
      assert HeldBy(eps, d) == One(d in open) == One(d in open');
    }
  }

  ghost predicate AnyMock(eps: seq<Endpoint>) { exists i :: 0 <= i < |eps| && eps[i].IsMock() }

  /** How probing a fresh endpoint goes. */
  datatype Probe = Disabled | IdentifyFailed | UnknownComponent | Identified(fmapiSocketOk: bool)

  // ---------------------------------------------------------------- the context

  class Context {
    const kernel: Kernel
    var endpoints: seq<Endpoint>
    var faulted: bool   // a call followed socket numbers as a pointer; nothing is defined from there on

    ghost predicate Valid()
      reads this, kernel
    {
      kernel.Valid() && Balanced(kernel.open, endpoints) && Unshared(endpoints)
    }

    constructor (k: Kernel)
      requires k.Valid() && k.open == {}
      ensures Valid() && kernel == k && endpoints == [] && !faulted
    {
      kernel, endpoints, faulted := k, [], false;
    }

    ghost function View(): Snapshot
      reads this, kernel
    {
      Snapshot(kernel.open, endpoints)
    }

    /** Turns FM-API on: a second socket for an MCTP endpoint, only a flag otherwise. */
    method EnableFmapi(i: nat, socketOk: bool) returns (ok: bool)
      requires Valid() && i < |endpoints|
      modifies this`endpoints, kernel
      ensures Valid()
      ensures |endpoints| == |old(endpoints)| && endpoints == old(endpoints)[i := endpoints[i]]
      ensures SameEndpoint(endpoints[i], old(endpoints[i]))
      ensures endpoints[i].hasFmapi == ok == (old(endpoints[i].hasFmapi) || endpoints[i].mctp.None? || socketOk)
    {
      var e := endpoints[i];
      if e.hasFmapi { return true; }
      ghost var open := kernel.open;
      if e.mctp.Some? {
        var sd := kernel.Open(socketOk);
        e := e.(mctp := Some(e.mctp.value.(fmapiSd := sd)));
        if sd < 0 {
          UpdateBalances(open, kernel.open, endpoints, i, e);
          endpoints := endpoints[i := e];
          return false;
        }
      }
      e := e.(hasFmapi := true);
      UpdateBalances(open, kernel.open, endpoints, i, e);
      endpoints := endpoints[i := e];
      return true;
    }

    method DisableFmapi(i: nat)
      requires Valid() && i < |endpoints|
      modifies this`endpoints, kernel
      ensures Valid()
      ensures |endpoints| == |old(endpoints)| && endpoints == old(endpoints)[i := endpoints[i]]
      ensures SameEndpoint(endpoints[i], old(endpoints[i])) && !endpoints[i].hasFmapi
    {
      var e := endpoints[i];
      if !e.hasFmapi { return; }
      ghost var open := kernel.open;
      if e.mctp.Some? {
        HeldIsOpen(open, endpoints, i, e.mctp.value.fmapiSd);
        kernel.Close(e.mctp.value.fmapiSd);
        e := e.(mctp := Some(e.mctp.value.(fmapiSd := -1)));
      }
      e := e.(hasFmapi := false);
      UpdateBalances(open, kernel.open, endpoints, i, e);
      endpoints := endpoints[i := e];
    }

    /** Closes every descriptor an endpoint holds. */
    method Release(i: nat)
      requires Valid() && i < |endpoints|
      modifies kernel
      ensures kernel.Valid()
      ensures forall d :: One(d in kernel.open) == One(d in old(kernel.open)) - endpoints[i].Holds(d)
    {
      var e := endpoints[i];
      forall d ensures e.Holds(d) <= 1 && (e.Holds(d) == 1 ==> d in kernel.open) {
        HeldIsOpen(kernel.open, endpoints, i, d);
      }
      if e.mctp.Some? {
        assert e.Holds(e.mctp.value.sd) == 1 && (e.hasFmapi ==> e.Holds(e.mctp.value.fmapiSd) == 1);
        if e.hasFmapi { kernel.Close(e.mctp.value.fmapiSd); }
        kernel.Close(e.mctp.value.sd);
      } else if e.fd >= 0 {
        assert e.Holds(e.fd) == 1;
        kernel.Close(e.fd);
      }
    }

    /** Closes an endpoint. One that is taken for a mock sends the response walk of the mock's close path
        to an address made of its socket numbers. */
    method Close(i: nat)
      requires Valid() && !faulted && i < |endpoints|
      modifies this`endpoints, this`faulted, kernel
      ensures faulted <==> old(endpoints[i].IsMock())
      ensures !faulted ==> Valid() && endpoints == Without(old(endpoints), i)
    {
      if endpoints[i].IsMock() {
        faulted := true;
        return;
      }
      ghost var open := kernel.open;
      Release(i);
      RemovalBalances(open, kernel.open, endpoints, i);
      endpoints := Without(endpoints, i);
    }

    /** init_endpoint: a blank endpoint at the head of the list. */
    method InitEndpoint()
      requires Valid()
      modifies this`endpoints
      ensures Valid() && endpoints == [BLANK] + old(endpoints)
    {
      AddBalances(kernel.open, endpoints);
      endpoints := [BLANK] + endpoints;
    }

    method AlreadyOpen(nid: nat, eid: byte) returns (found: bool)
      ensures found <==> AnyAt(endpoints, nid, eid)
      ensures found <==> exists e :: e in endpoints && e.mctp.Some? && e.mctp.value.nid == nid && e.mctp.value.eid == eid
    {
      for k := 0 to |endpoints|
        invariant forall j :: 0 <= j < k ==> !AtAddress(endpoints[j], nid, eid)
      {
        if AtAddress(endpoints[k], nid, eid) { return true; }
      }
      return false;
    }

    method AlreadyNamed(devname: string) returns (found: bool)
      ensures found <==> AnyNamed(endpoints, devname)
      ensures found <==> exists e :: e in endpoints && e.devname == Some(devname)
    {
      for k := 0 to |endpoints|
        invariant forall j :: 0 <= j < k ==> endpoints[j].devname != Some(devname)
      {
        if endpoints[k].devname == Some(devname) { return true; }
      }
      return false;
    }

    /** The failed-open path: the head of the list is closed again, and nothing has changed. */
    method Undo(ghost open: set<int>, ghost eps: seq<Endpoint>)
      requires Valid() && !faulted && |endpoints| == |eps| + 1 && endpoints[1..] == eps && !endpoints[0].IsMock()
      requires Balanced(open, eps)
      modifies this`endpoints, this`faulted, kernel
      ensures Valid() && !faulted && endpoints == eps && kernel.open == open
    {
      assert Without(endpoints, 0) == eps;
      Close(0);
      OneTable(kernel.open, open, eps);
    }

    /** Opens an MCTP endpoint at the head of the list; refused if the target is open already. A probe
        under the mock's mark sends Identify into the mock, which searches the same list. */
    method OpenMctp(nid: nat, eid: byte, socketOk: bool, probe: Probe) returns (done: bool)
      requires Valid() && !faulted
      modifies this`endpoints, this`faulted, kernel
      ensures faulted <==> socketOk && !AnyAt(old(endpoints), nid, eid) && nid == 0x4D4F_434B && probe != Disabled
      ensures !faulted ==> Valid()
      ensures !faulted ==> (done <==> socketOk && !AnyAt(old(endpoints), nid, eid))
      ensures socketOk && (nid == 0x4D4F_434B ==> probe == Disabled) &&
              (forall e :: e in old(endpoints) && e.mctp.Some? ==> !(e.mctp.value.nid == nid && e.mctp.value.eid == eid)) ==>
                done && endpoints != [] && endpoints[0].mctp.Some? && endpoints[0].mctp.value.nid == nid && endpoints[0].mctp.value.eid == eid
      ensures !faulted && !done ==> endpoints == old(endpoints) && kernel.open == old(kernel.open)
      ensures done ==> !faulted && endpoints != [] && endpoints[1..] == old(endpoints) && AtAddress(endpoints[0], nid, eid)
      ensures done ==> (endpoints[0].hasFmapi <==> probe == Identified(true))
    {
      var found := AlreadyOpen(nid, eid);
      if found { return false; }
      InitEndpoint();
      ghost var open := kernel.open;
      var sd := kernel.Open(socketOk);
      if sd < 0 {
        Undo(open, old(endpoints));
        return false;
      }
      var e := Endpoint(Some(Mctp(nid, eid, sd, 0)), -1, None, false);
      UpdateBalances(open, kernel.open, endpoints, 0, e);
      UnsharedFirst(old(endpoints), e);
      endpoints := endpoints[0 := e];
      assert endpoints == [e] + old(endpoints);
      if probe != Disabled && e.IsMock() {
        faulted := true;
        return false;
      }
      if probe.Identified? { var _ := EnableFmapi(0, probe.fmapiSocketOk); }
      return true;
    }

    /** Opens a device file; refused if that device is open already. */
    method Open(devname: string, openOk: bool, strdupOk: bool, probeEnabled: bool) returns (done: bool)
      requires Valid() && !faulted
      modifies this`endpoints, this`faulted, kernel
      ensures Valid() && !faulted
      ensures done <==> openOk && strdupOk && !AnyNamed(old(endpoints), devname)
      ensures openOk && strdupOk && (forall e :: e in old(endpoints) ==> e.devname != Some(devname)) ==> done
      ensures !done ==> endpoints == old(endpoints) && kernel.open == old(kernel.open)
      ensures done ==> endpoints != [] && endpoints[1..] == old(endpoints) && endpoints[0].devname == Some(devname)
      ensures done ==> endpoints[0].mctp.None? && endpoints[0].hasFmapi == probeEnabled
    {
      var found := AlreadyNamed(devname);
      if found { return false; }
      InitEndpoint();
      ghost var open := kernel.open;
      var fd := kernel.Open(openOk);
      var e := BLANK.(fd := fd);
      UpdateBalances(open, kernel.open, endpoints, 0, e);
      UnsharedFirst(old(endpoints), e);
      endpoints := endpoints[0 := e];
      assert endpoints == [e] + old(endpoints);
      if fd < 0 || !strdupOk {
        Undo(open, old(endpoints));
        return false;
      }
      e := e.(devname := Some(devname), hasFmapi := probeEnabled);
      UpdateBalances(kernel.open, kernel.open, endpoints, 0, e);
      UnsharedFirst(old(endpoints), e);
      endpoints := endpoints[0 := e];
      assert endpoints == [e] + old(endpoints);
      return true;
    }

    /** Closes every remaining endpoint. */
    method FreeCtx()
      requires Valid() && !faulted
      modifies this`endpoints, this`faulted, kernel
      ensures faulted <==> AnyMock(old(endpoints))
      ensures !faulted ==> Valid() && endpoints == [] && kernel.open == {}
    {
      while endpoints != []
        invariant Valid() && !faulted
        invariant AnyMock(endpoints) <==> AnyMock(old(endpoints))
        decreases |endpoints|
      {
        AnyMockAt(endpoints, 0);
        Close(0);
        if faulted { return; }
      }
      forall d ensures d !in kernel.open {
        assert HeldBy(endpoints, d) == One(d in kernel.open);
      }
    }
  }

  ghost predicate AnyAt(eps: seq<Endpoint>, nid: nat, eid: byte) {
    exists i :: 0 <= i < |eps| && AtAddress(eps[i], nid, eid)
  }

  ghost predicate AnyNamed(eps: seq<Endpoint>, devname: string) {
    exists i :: 0 <= i < |eps| && eps[i].devname == Some(devname)
  }

  lemma UnsharedFirst(eps: seq<Endpoint>, e: Endpoint)
    requires Unshared(eps) && forall i :: 0 <= i < |eps| ==> !SameTarget(e, eps[i])
    ensures Unshared([e] + eps)
  {
  }

  lemma AnyMockAt(eps: seq<Endpoint>, k: nat)
    requires k < |eps|
    ensures AnyMock(eps) <==> eps[k].IsMock() || AnyMock(Without(eps, k))
  {
    var rest := Without(eps, k);
    if AnyMock(eps) && !eps[k].IsMock() {
      var i :| 0 <= i < |eps| && eps[i].IsMock();
      assert rest[if i < k then i else i - 1].IsMock();
    }
    if AnyMock(rest) {
      var i :| 0 <= i < |rest| && rest[i].IsMock();
      assert eps[if i < k then i else i + 1].IsMock();
    }
  }

  predicate AtAddress(e: Endpoint, nid: nat, eid: byte) {
    e.mctp.Some? && e.mctp.value.nid == nid && e.mctp.value.eid == eid
  }

  /** Same transport, apart from the FM-API part. */
  predicate SameEndpoint(a: Endpoint, b: Endpoint) {
    && a.fd == b.fd && a.devname == b.devname && a.mctp.Some? == b.mctp.Some?
    && (a.mctp.Some? ==> a.mctp.value == b.mctp.value.(fmapiSd := a.mctp.value.fmapiSd))
  }

  // ---------------------------------------------------------------- whole runs

  datatype Call =
    | OpenMctp(nid: nat, eid: byte, socketOk: bool, probe: Probe)
    | OpenDevice(devname: string, openOk: bool, strdupOk: bool, probeEnabled: bool)
    | Enable(at: nat, socketOk: bool)
    | Disable(at: nat)
    | Close(at: nat)

  /** An MCTP endpoint opened under the network id that equals the mock's mark. */
  predicate Mistaken(c: Call)
    ensures Mistaken(c) <==> c.OpenMctp? && c.nid == 0x4D4F_434B && c.socketOk
  {
    c.OpenMctp? && c.nid == MOCK_MAGIC && c.socketOk
  }

  /** The descriptor table and the endpoints between two calls. */
  datatype Snapshot = Snapshot(open: set<int>, endpoints: seq<Endpoint>)

  /** Every open descriptor is held once, every other one not at all, and no two endpoints share a target. */
  ghost predicate InOrder(s: Snapshot) { Balanced(s.open, s.endpoints) && Unshared(s.endpoints) }

  ghost predicate MctpAdded(eps: seq<Endpoint>, eps': seq<Endpoint>, nid: nat, eid: byte, hasFmapi: bool) {
    eps' != [] && eps'[1..] == eps && AtAddress(eps'[0], nid, eid) && eps'[0].hasFmapi == hasFmapi
  }

  ghost predicate DeviceAdded(eps: seq<Endpoint>, eps': seq<Endpoint>, devname: string, hasFmapi: bool) {
    && eps' != [] && eps'[1..] == eps
    && eps'[0].mctp.None? && eps'[0].devname == Some(devname) && eps'[0].hasFmapi == hasFmapi
  }

  /** Endpoint `i` has its FM-API flag set, and nothing else changes. */
  ghost predicate FmapiSet(eps: seq<Endpoint>, eps': seq<Endpoint>, i: nat, on: bool)
    requires i < |eps|
  {
    |eps'| == |eps| && eps' == eps[i := eps'[i]] && SameEndpoint(eps'[i], eps[i]) && eps'[i].hasFmapi == on
  }

  /** What a call does. With the accounts in order on both sides, the table follows from the endpoints. */
  ghost predicate Stepped(s: Snapshot, c: Call, s': Snapshot) {
    match c
    case OpenMctp(nid, eid, socketOk, probe) =>
      if socketOk && !AnyAt(s.endpoints, nid, eid)
      then MctpAdded(s.endpoints, s'.endpoints, nid, eid, probe == Identified(true))
      else s' == s
    case OpenDevice(devname, openOk, strdupOk, probeEnabled) =>
      if openOk && strdupOk && !AnyNamed(s.endpoints, devname)
      then DeviceAdded(s.endpoints, s'.endpoints, devname, probeEnabled)
      else s' == s
    case Enable(i, socketOk) =>
      if i < |s.endpoints|
      then FmapiSet(s.endpoints, s'.endpoints, i, s.endpoints[i].hasFmapi || s.endpoints[i].mctp.None? || socketOk)
      else s' == s
    case Disable(i) =>
      if i < |s.endpoints| then FmapiSet(s.endpoints, s'.endpoints, i, false) else s' == s
    case Close(i) =>
      if i < |s.endpoints| then s'.endpoints == Without(s.endpoints, i) else s' == s
  }

  /** The calls that follow socket numbers as a pointer: closing an endpoint taken for a mock, and opening
      one with a probe. */
  ghost predicate Faults(s: Snapshot, c: Call) {
    match c
    case OpenMctp(nid, eid, socketOk, probe) =>
      socketOk && !AnyAt(s.endpoints, nid, eid) && nid == MOCK_MAGIC && probe != Disabled
    case Close(i) => i < |s.endpoints| && s.endpoints[i].IsMock()
    case _ => false
  }

  // ---------------------------------------------------------------- what a step does, on the fields

  /** An MCTP endpoint opens if its socket does and no endpoint has both its network and its endpoint id;
      then it is there under these ids, in front of the others. Otherwise nothing changes. */
  lemma OpensUnlessPresent(s: Snapshot, s': Snapshot, nid: nat, eid: byte, socketOk: bool, probe: Probe)
    requires Stepped(s, OpenMctp(nid, eid, socketOk, probe), s')
    ensures var taken := exists e :: e in s.endpoints && e.mctp.Some? && e.mctp.value.nid == nid && e.mctp.value.eid == eid;
            if socketOk && !taken then
              && |s'.endpoints| == |s.endpoints| + 1 && s'.endpoints[1..] == s.endpoints
              && var e := s'.endpoints[0];
                 e.mctp.Some? && e.mctp.value.nid == nid && e.mctp.value.eid == eid && e.hasFmapi == (probe == Identified(true))
            else s' == s
  {
  }

  /** A device opens if its file and its name can be had and no endpoint has that name. */
  lemma OpensUnlessNamed(s: Snapshot, s': Snapshot, devname: string, openOk: bool, strdupOk: bool, probeEnabled: bool)
    requires Stepped(s, OpenDevice(devname, openOk, strdupOk, probeEnabled), s')
    ensures var taken := exists e :: e in s.endpoints && e.devname == Some(devname);
            if openOk && strdupOk && !taken then
              && |s'.endpoints| == |s.endpoints| + 1 && s'.endpoints[1..] == s.endpoints
              && var e := s'.endpoints[0];
                 e.mctp.None? && e.devname == Some(devname) && e.hasFmapi == probeEnabled
            else s' == s
  {
  }

  /** Enabling and disabling touch one endpoint, and of it the flag and the second socket only. */
  lemma TogglesOne(s: Snapshot, c: Call, s': Snapshot, i: nat, k: nat)
    requires Stepped(s, c, s') && (c == Disable(i) || c == Enable(i, true) || c == Enable(i, false)) && i < |s.endpoints|
    ensures |s'.endpoints| == |s.endpoints|
    ensures k < |s.endpoints| && k != i ==> s'.endpoints[k] == s.endpoints[k]
    ensures var e, e' := s.endpoints[i], s'.endpoints[i];
            && e'.fd == e.fd && e'.devname == e.devname && e'.mctp.Some? == e.mctp.Some?
            && (e.mctp.Some? ==>
                  && e'.mctp.value.nid == e.mctp.value.nid && e'.mctp.value.eid == e.mctp.value.eid
                  && e'.mctp.value.sd == e.mctp.value.sd)
            && (c == Disable(i) ==> !e'.hasFmapi)
            && (c == Enable(i, true) ==> e'.hasFmapi)
            && (c == Enable(i, false) ==> e'.hasFmapi == (e.hasFmapi || e.mctp.None?))
  {
    assert s'.endpoints == s.endpoints[i := s'.endpoints[i]];
  }

  /** Closing takes one endpoint out and leaves the others as they were. */
  lemma ClosesOne(s: Snapshot, s': Snapshot, i: nat)
    requires Stepped(s, Close(i), s') && i < |s.endpoints|
    ensures s'.endpoints == s.endpoints[..i] + s.endpoints[i + 1..]
  {
  }

  /** In an orderly snapshot a descriptor is open exactly when an endpoint holds it: as its socket, as its
      second socket while the FM-API is on, or as its device file; and then only one does, once. */
  lemma HeldOnce(s: Snapshot, i: nat, d: int)
    requires InOrder(s) && i < |s.endpoints|
    ensures var e := s.endpoints[i];
            && (e.mctp.Some? ==> e.mctp.value.sd in s.open)
            && (e.mctp.Some? && e.hasFmapi ==> e.mctp.value.fmapiSd in s.open && e.mctp.value.fmapiSd != e.mctp.value.sd)
            && (e.mctp.None? && e.fd >= 0 ==> e.fd in s.open)
    ensures forall j :: 0 <= j < |s.endpoints| && j != i && s.endpoints[i].Holds(d) > 0 ==> s.endpoints[j].Holds(d) == 0
  {
    var e := s.endpoints[i];
    if e.mctp.Some? {
      HeldIsOpen(s.open, s.endpoints, i, e.mctp.value.sd);
      HeldIsOpen(s.open, s.endpoints, i, e.mctp.value.fmapiSd);
    } else {
      HeldIsOpen(s.open, s.endpoints, i, e.fd);
    }
    forall j | 0 <= j < |s.endpoints| && j != i && e.Holds(d) > 0 ensures s.endpoints[j].Holds(d) == 0 {
      HeldAfterRemoval(s.endpoints, i, d);
      var rest := Without(s.endpoints, i);
      var j' := if j < i then j else j - 1;
      HeldAfterRemoval(rest, j', d);
      assert rest[j'] == s.endpoints[j];
    }
  }

  /** And nothing else is open. */
  lemma {:induction false} OpenIsHeld(eps: seq<Endpoint>, d: int)
    requires HeldBy(eps, d) > 0
    ensures exists i :: 0 <= i < |eps| && eps[i].Holds(d) > 0
  {
    if eps[0].Holds(d) == 0 {
      OpenIsHeld(eps[1..], d);
      var i :| 0 <= i < |eps[1..]| && eps[1..][i].Holds(d) > 0;
      assert eps[i + 1].Holds(d) > 0;
    }
  }

  /** No two endpoints of an orderly snapshot have the same ids or the same name. */
  lemma NoneTwice(s: Snapshot, i: nat, j: nat)
    requires InOrder(s) && i < j < |s.endpoints|
    ensures var a, b := s.endpoints[i], s.endpoints[j];
            && !(a.mctp.Some? && b.mctp.Some? && a.mctp.value.nid == b.mctp.value.nid && a.mctp.value.eid == b.mctp.value.eid)
            && !(a.devname.Some? && a.devname == b.devname)
  {
    assert !SameTarget(s.endpoints[i], s.endpoints[j]);
  }

  /** A call faults exactly if it closes an MCTP endpoint on network 0x4D4F434B, or opens one there with
      a probe. */
  lemma FaultsIff(s: Snapshot, c: Call)
    ensures Faults(s, c) <==>
              match c
              case OpenMctp(nid, eid, socketOk, probe) =>
                && nid == 0x4D4F_434B && socketOk && probe != Disabled
                && forall e :: e in s.endpoints && e.mctp.Some? ==> !(e.mctp.value.nid == nid && e.mctp.value.eid == eid)
              case Close(i) => i < |s.endpoints| && s.endpoints[i].mctp.Some? && s.endpoints[i].mctp.value.nid == 0x4D4F_434B
              case _ => false
  {
  }

  /** One call. It faults, or leaves an endpoint that a later close will fault on, exactly when there
      already was one or the call opens one. */
  method Perform(ctx: Context, c: Call)
    requires ctx.Valid() && !ctx.faulted
    modifies ctx, ctx.kernel
    ensures ctx.faulted <==> Faults(old(ctx.View()), c)
    ensures !ctx.faulted ==> ctx.Valid() && InOrder(ctx.View()) && Stepped(old(ctx.View()), c, ctx.View())
    ensures ctx.faulted || AnyMock(ctx.endpoints) <==> old(AnyMock(ctx.endpoints)) || Mistaken(c)
  {
    ghost var eps := ctx.endpoints;
    match c {
      case OpenMctp(nid, eid, socketOk, probe) =>
        var done := ctx.OpenMctp(nid, eid, socketOk, probe);
        if done { HeadAdded(eps, ctx.endpoints); } else if Mistaken(c) && !ctx.faulted { MockAt(eps, eid); }
      case OpenDevice(devname, openOk, strdupOk, probeEnabled) =>
        var done := ctx.Open(devname, openOk, strdupOk, probeEnabled);
        if done { HeadAdded(eps, ctx.endpoints); }
      case Enable(i, socketOk) =>
        if i < |ctx.endpoints| {
          var _ := ctx.EnableFmapi(i, socketOk);
          SameMocks(eps, ctx.endpoints);
        }
      case Disable(i) =>
        if i < |ctx.endpoints| {
          ctx.DisableFmapi(i);
          SameMocks(eps, ctx.endpoints);
        }
      case Close(i) =>
        if i < |ctx.endpoints| {
          AnyMockAt(eps, i);
          if eps[i].IsMock() { assert AnyMock(eps); }
          ctx.Close(i);
        }
    }
  }

  lemma HeadAdded(eps: seq<Endpoint>, eps': seq<Endpoint>)
    requires eps' != [] && eps'[1..] == eps
    ensures AnyMock(eps') <==> eps'[0].IsMock() || AnyMock(eps)
  {
    AnyMockAt(eps', 0);
    assert Without(eps', 0) == eps;
  }

  lemma MockAt(eps: seq<Endpoint>, eid: byte)
    requires AnyAt(eps, MOCK_MAGIC, eid)
    ensures AnyMock(eps)
  {
    var i :| 0 <= i < |eps| && AtAddress(eps[i], MOCK_MAGIC, eid);
    assert eps[i].IsMock();
  }

  lemma SameMocks(eps: seq<Endpoint>, eps': seq<Endpoint>)
    requires |eps| == |eps'| && forall i :: 0 <= i < |eps| ==> SameEndpoint(eps'[i], eps[i])
    ensures AnyMock(eps) <==> AnyMock(eps')
  {
    if i :| 0 <= i < |eps| && eps[i].IsMock() { assert eps'[i].IsMock(); }
    if i :| 0 <= i < |eps'| && eps'[i].IsMock() { assert eps[i].IsMock(); }
  }

  /** The history of a run: each snapshot is in order and follows from the one before. */
  ghost predicate Recorded(history: seq<Snapshot>, calls: seq<Call>) {
    && 0 < |history| <= |calls| + 1 && history[0] == Snapshot({}, [])
    && (forall k :: 0 <= k < |history| ==> InOrder(history[k]))
    && forall k :: 0 <= k < |history| - 1 ==>
         !Faults(history[k], calls[k]) && Stepped(history[k], calls[k], history[k + 1])
  }

  lemma RecordedNext(history: seq<Snapshot>, calls: seq<Call>, s: Snapshot)
    requires Recorded(history, calls) && |history| <= |calls| && InOrder(s)
    requires var n := |history| - 1; !Faults(history[n], calls[n]) && Stepped(history[n], calls[n], s)
    ensures Recorded(history + [s], calls)
  {
    var longer := history + [s];
    forall k | 0 <= k < |longer| - 1
      ensures !Faults(longer[k], calls[k]) && Stepped(longer[k], calls[k], longer[k + 1])
    {
      assert longer[k] == history[k] && (k + 1 < |history| ==> longer[k + 1] == history[k + 1]);
    }
  }

  /** Any run of calls on a fresh context, failed opens included, ended by freeing it. At every point each
      open descriptor is held exactly once and no two endpoints share a target. The run is defined to
      its end, and then every descriptor has been closed, each once, if and only if no MCTP endpoint was
      opened under the mock's mark. */
  method RunAndFree(kernel: Kernel, calls: seq<Call>) returns (history: seq<Snapshot>, faulted: bool)
    requires kernel.Valid() && kernel.open == {}
    modifies kernel
    ensures Recorded(history, calls)
    ensures faulted <==> exists i :: 0 <= i < |calls| && Mistaken(calls[i])
    ensures faulted <==> var n := |history| - 1;
                         if n < |calls| then Faults(history[n], calls[n]) else AnyMock(history[n].endpoints)
    ensures !faulted ==> |history| == |calls| + 1
    ensures !faulted ==> kernel.Valid() && kernel.open == {} && forall d :: 0 <= d < kernel.next ==> d in kernel.closed
  {
    var ctx := new Context(kernel);
    history := [Snapshot({}, [])];
    for n := 0 to |calls|
      invariant ctx.kernel == kernel && ctx.Valid() && !ctx.faulted
      invariant Recorded(history, calls) && |history| == n + 1 && history[n] == ctx.View()
      invariant AnyMock(ctx.endpoints) <==> exists i :: 0 <= i < n && Mistaken(calls[i])
    {
      Perform(ctx, calls[n]);
      if ctx.faulted { return history, true; }
      RecordedNext(history, calls, Snapshot(kernel.open, ctx.endpoints));
      history := history + [Snapshot(kernel.open, ctx.endpoints)];
    }
    ctx.FreeCtx();
    faulted := ctx.faulted;
  }

  /** The smallest failing run: one MCTP open under the mock's mark, without a probe, and the fault comes
      when the context is freed. */
  method FaultingRun(kernel: Kernel) returns (history: seq<Snapshot>, faulted: bool)
    requires kernel.Valid() && kernel.open == {}
    modifies kernel
    ensures faulted && |history| == 2 && |history[1].endpoints| == 1 && history[1].endpoints[0].IsMock()
  {
    var calls := [Call.OpenMctp(MOCK_MAGIC, 8, true, Disabled)];
    assert Mistaken(calls[0]);
    history, faulted := RunAndFree(kernel, calls);
  }
}
