/**
  The VM lease pool as a transition system. Every operation runs under the pool's lock, so
  each is one step; a rebuild is a step that starts it and a later one that completes it.
 */
module Pool {
  import opened Options
  import opened Text

  datatype VmState = Ready | Leased | Rebuilding

  datatype Vm = Vm(state: VmState, ip: string, lastUsed: real)

  datatype Lease = Lease(host: string, port: nat, vm: string, protocol: string, session: string)

  datatype Config = Config(tag: string, maxVms: int, provisionIp: string, sshPort: nat, telnetPort: nat, unusedTimeout: real)

  /** `order` is the insertion order of the dictionary of VMs; `rebuilds` the pending tasks. */
  datatype Pool = Pool(
    order: seq<string>,
    vms: map<string, Vm>,
    leases: map<string, Lease>,
    rebuilds: multiset<string>)

  function VmId(c: Config, k: nat): string {
    c.tag + "-" + Decimal(k)
  }

  // ----- the steps -----

  function FirstReady(order: seq<string>, vms: map<string, Vm>): (r: Option<string>)
    ensures r.Some? ==> r.value in order && r.value in vms && vms[r.value].state.Ready?
    ensures r.None? ==> forall v :: v in order && v in vms ==> !vms[v].state.Ready?
  {
    if order == [] then None
    else if order[0] in vms && vms[order[0]].state.Ready? then Some(order[0])
    else FirstReady(order[1..], vms)
  }

  function Provision(c: Config, p: Pool, id: string, now: real): Pool {
    p.(order := if id in p.vms then p.order else p.order + [id],
       vms := p.vms[id := Vm(Ready, c.provisionIp, now)])
  }

  function Take(c: Config, p: Pool, vm: string, session: string, protocol: string, now: real): (Pool, Lease)
    requires vm in p.vms
  {
    var l := Lease(p.vms[vm].ip, if protocol == "ssh" then c.sshPort else c.telnetPort, vm, protocol, session);
    (p.(vms := p.vms[vm := p.vms[vm].(state := Leased, lastUsed := now)], leases := p.leases[session := l]), l)
  }

  function Reserve(c: Config, p: Pool, session: string, protocol: string, now: real): (Pool, Option<Lease>) {
    match FirstReady(p.order, p.vms)
    case Some(vm) =>
      var (q, l) := Take(c, p, vm, session, protocol, now);
      (q, Some(l))
    case None =>
      if |p.vms| < c.maxVms then
        var id := VmId(c, |p.vms| + 1);
        var (q, l) := Take(c, Provision(c, p, id, now), id, session, protocol, now);
        (q, Some(l))
      else (p, None)
  }

  /** The VM starts rebuilding. */
  function StartRebuild(p: Pool, vm: string): Pool
    requires vm in p.vms
  {
    p.(vms := p.vms[vm := p.vms[vm].(state := Rebuilding)], rebuilds := p.rebuilds + multiset{vm})
  }

  function Release(p: Pool, l: Lease): Pool {
    var q := p.(leases := p.leases - {l.session});
    if l.vm in p.vms then StartRebuild(q, l.vm) else q
  }

  function RebuildDone(p: Pool, vm: string, now: real): Pool {
    var q := p.(rebuilds := p.rebuilds - multiset{vm});
    if vm in p.vms then q.(vms := p.vms[vm := p.vms[vm].(state := Ready, lastUsed := now)]) else q
  }

  /** The check of one VM by the health or recycling loop; `due` is their verdict on it. */
  function Check(p: Pool, vm: string, due: bool): Pool {
    if vm in p.vms && p.vms[vm].state.Ready? && due then StartRebuild(p, vm) else p
  }

  function CheckEach(p: Pool, ids: seq<string>, due: set<string>): Pool
    decreases |ids|
  {
    if ids == [] then p else CheckEach(Check(p, ids[0], ids[0] in due), ids[1..], due)
  }

  /** The first VM, in insertion order, at an address. */
  function VmAt(order: seq<string>, vms: map<string, Vm>, host: string): (r: Option<string>)
    ensures r.Some? ==> r.value in vms
  {
    if order == [] then None
    else if order[0] in vms && vms[order[0]].ip == host then Some(order[0])
    else VmAt(order[1..], vms, host)
  }

  function ReportFailure(p: Pool, host: string): Pool {
    match VmAt(p.order, p.vms, host)
    case Some(vm) => if p.vms[vm].state.Leased? then StartRebuild(p, vm) else p
    case None => p
  }

  // ----- the invariant -----

  /** The sessions holding a lease on a VM. */
  function Holders(p: Pool, vm: string): set<string> {
    set s | s in p.leases && p.leases[s].vm == vm
  }

  /** A leased VM has exactly one lease and no pending rebuild, a rebuilding VM exactly one
      pending rebuild and no lease, a ready VM neither. */
  ghost predicate Exclusive(p: Pool, vm: string)
    requires vm in p.vms
  {
    match p.vms[vm].state
    case Ready => Holders(p, vm) == {} && p.rebuilds[vm] == 0
    case Leased => (exists s :: s in p.leases && Holders(p, vm) == {s}) && p.rebuilds[vm] == 0
    case Rebuilding => Holders(p, vm) == {} && p.rebuilds[vm] == 1
  }

  /** The ids are numbered from one without gaps, in any order. */
  ghost predicate Contiguous(c: Config, p: Pool) {
    && (forall v :: v in p.vms <==> v in p.order)
    && (forall v :: v in p.vms ==> NumberedUpTo(c, v, |p.vms|))
  }

  ghost predicate NumberedUpTo(c: Config, v: string, n: nat) {
    exists k: nat :: 1 <= k <= n && v == VmId(c, k)
  }

  ghost predicate AllExclusive(p: Pool) {
    && (forall vm :: vm in p.vms ==> Exclusive(p, vm))
    && (forall s :: s in p.leases ==> p.leases[s].session == s && p.leases[s].vm in p.vms)
    && (forall vm :: vm in p.rebuilds ==> vm in p.vms)
  }

  ghost predicate Inv(c: Config, p: Pool) {
    AllExclusive(p) && Contiguous(c, p) && |p.vms| <= (if c.maxVms > 0 then c.maxVms else 0)
  }

  lemma VmIdInjective(c: Config, j: nat, k: nat)
    requires VmId(c, j) == VmId(c, k)
    ensures j == k
  {
    var pre := c.tag + "-";
    assert VmId(c, j)[|pre|..] == Decimal(j) && VmId(c, k)[|pre|..] == Decimal(k);
    DecimalInjective(j, k);
  }

  /** Numbered without gaps, the next id is new: provisioning never overwrites an entry. */
  lemma ProvisionIsNew(c: Config, p: Pool)
    requires Contiguous(c, p)
    ensures VmId(c, |p.vms| + 1) !in p.vms
  {
    var id := VmId(c, |p.vms| + 1);
    if id in p.vms {
      assert NumberedUpTo(c, id, |p.vms|);
      var k: nat :| 1 <= k <= |p.vms| && id == VmId(c, k);
      VmIdInjective(c, k, |p.vms| + 1);
    }
  }

  lemma ProvisionExclusive(c: Config, p: Pool, id: string, now: real)
    requires AllExclusive(p) && id !in p.vms
    ensures AllExclusive(Provision(c, p, id, now)) && Provision(c, p, id, now).vms[id].state.Ready?
  {
  }

  lemma ProvisionContiguous(c: Config, p: Pool, now: real)
    requires Contiguous(c, p)
    ensures Contiguous(c, Provision(c, p, VmId(c, |p.vms| + 1), now))
    ensures |Provision(c, p, VmId(c, |p.vms| + 1), now).vms| == |p.vms| + 1
  {
    hide VmId;
    ProvisionIsNew(c, p);
    var id := VmId(c, |p.vms| + 1);
    var q := Provision(c, p, id, now);
    forall v | v in q.vms ensures NumberedUpTo(c, v, |q.vms|) {
      if v != id {
        var k: nat :| 1 <= k <= |p.vms| && v == VmId(c, k);
      }
    }
  }

  lemma TakeExclusive(c: Config, p: Pool, vm: string, session: string, protocol: string, now: real)
    requires AllExclusive(p) && vm in p.vms && p.vms[vm].state.Ready? && session !in p.leases
    ensures AllExclusive(Take(c, p, vm, session, protocol, now).0)
    ensures Holders(Take(c, p, vm, session, protocol, now).0, vm) == {session}
  {
    var q := Take(c, p, vm, session, protocol, now).0;
    assert Exclusive(p, vm);
    assert Holders(q, vm) == Holders(p, vm) + {session};
    forall v | v in q.vms ensures Exclusive(q, v) {
      assert Exclusive(p, v);
      if v == vm {
        assert session in q.leases;
      } else {
        assert Holders(q, v) == Holders(p, v);
        if p.vms[v].state.Leased? {
          var s :| s in p.leases && Holders(p, v) == {s};
          assert s in q.leases;
        }
      }
    }
  }

  lemma TakeContiguous(c: Config, p: Pool, vm: string, session: string, protocol: string, now: real)
    requires Contiguous(c, p) && vm in p.vms
    ensures Contiguous(c, Take(c, p, vm, session, protocol, now).0)
    ensures |Take(c, p, vm, session, protocol, now).0.vms| == |p.vms|
  {
  }

  /** The reservation provisions under an id that is already taken. */
  predicate Overwrites(c: Config, p: Pool) {
    FirstReady(p.order, p.vms).None? && |p.vms| < c.maxVms && VmId(c, |p.vms| + 1) in p.vms
  }

  /** A reservation by a session that holds no lease keeps exclusivity exactly when it does
      not provision over an existing VM, which gaps in the discovered ids allow. */
  lemma ReserveExclusiveIff(c: Config, p: Pool, session: string, protocol: string, now: real)
    requires AllExclusive(p) && session !in p.leases
    requires forall v :: v in p.vms ==> v in p.order
    ensures AllExclusive(Reserve(c, p, session, protocol, now).0) <==> !Overwrites(c, p)
  {
    hide VmId, Exclusive, AllExclusive;
    match FirstReady(p.order, p.vms)
    case Some(vm) => TakeExclusive(c, p, vm, session, protocol, now);
    case None =>
      if |p.vms| < c.maxVms {
        var id := VmId(c, |p.vms| + 1);
        if id in p.vms {
          OverwriteShares(c, p, id, session, protocol, now);
        } else {
          ProvisionExclusive(c, p, id, now);
          TakeExclusive(c, Provision(c, p, id, now), id, session, protocol, now);
        }
      }
  }

  lemma OverwriteShares(c: Config, p: Pool, id: string, session: string, protocol: string, now: real)
    requires AllExclusive(p) && session !in p.leases
    requires id in p.vms && !p.vms[id].state.Ready?
    ensures !AllExclusive(Take(c, Provision(c, p, id, now), id, session, protocol, now).0)
  {
    var q := Take(c, Provision(c, p, id, now), id, session, protocol, now).0;
    assert Exclusive(p, id);
    assert Holders(q, id) == Holders(p, id) + {session};
    if p.vms[id].state.Leased? {
      var s :| s in p.leases && Holders(p, id) == {s};
      assert s in Holders(q, id) && session in Holders(q, id) && s != session;
    }
    assert !Exclusive(q, id);
  }

  /** A gap in the discovered ids: only the second VM was found. Its first holder and the
      next session to reserve share it. */
  lemma GapShares(c: Config, ip: string, start: real, s: string, r: string, protocol: string, now: real)
    requires c.maxVms >= 2 && s != r
    ensures
      var id := VmId(c, 2);
      var found := Pool([id], map[id := Vm(Ready, ip, start)], map[], multiset{});
      var held := Reserve(c, found, s, protocol, now).0;
      && AllExclusive(found) && AllExclusive(held) && Overwrites(c, held)
      && Holders(Reserve(c, held, r, protocol, now).0, id) == {s, r}
  {
    hide VmId, AllExclusive;
    var id := VmId(c, 2);
    var found := Pool([id], map[id := Vm(Ready, ip, start)], map[], multiset{});
    assert AllExclusive(found) by { FoundExclusive(id, ip, start); }
    FirstOf(id, found.vms);
    TakeExclusive(c, found, id, s, protocol, now);
    TakeShares(c, found, id, s, protocol, now);
    var held := Take(c, found, id, s, protocol, now).0;
    FirstOf(id, held.vms);
    assert |held.vms| == 1;
    var over := Provision(c, held, id, now);
    assert Holders(over, id) == Holders(held, id) == {s};
    TakeShares(c, over, id, r, protocol, now);
  }

  lemma FoundExclusive(id: string, ip: string, start: real)
    ensures AllExclusive(Pool([id], map[id := Vm(Ready, ip, start)], map[], multiset{}))
  {
  }

  lemma FirstOf(id: string, vms: map<string, Vm>)
    requires id in vms
    ensures FirstReady([id], vms) == if vms[id].state.Ready? then Some(id) else None
  {
    assert [id][1..] == [];
  }

  /** With contiguous ids, a reservation by a session that holds no lease keeps exclusivity
      and the bound on the number of VMs, hands out a VM that was ready or new, and fails
      exactly when no VM is ready and the pool is full. */
  lemma ReserveKeepsInv(c: Config, p: Pool, session: string, protocol: string, now: real)
    requires Inv(c, p) && session !in p.leases
    ensures Inv(c, Reserve(c, p, session, protocol, now).0)
    ensures Reserve(c, p, session, protocol, now).1.None? <==>
      (forall v :: v in p.vms ==> !p.vms[v].state.Ready?) && |p.vms| >= c.maxVms
    ensures Reserve(c, p, session, protocol, now).1.Some? ==>
      var (q, l) := Reserve(c, p, session, protocol, now);
      && l.value.session == session && session in q.leases && q.leases[session] == l.value
      && l.value.vm in q.vms && Holders(q, l.value.vm) == {session}
      && (l.value.vm in p.vms ==> p.vms[l.value.vm].state.Ready?)
  {
    hide VmId, Exclusive, AllExclusive;
    match FirstReady(p.order, p.vms)
    case Some(vm) =>
      TakeExclusive(c, p, vm, session, protocol, now);
      TakeContiguous(c, p, vm, session, protocol, now);
    case None =>
      if |p.vms| < c.maxVms {
        var id := VmId(c, |p.vms| + 1);
        ProvisionIsNew(c, p);
        ProvisionExclusive(c, p, id, now);
        ProvisionContiguous(c, p, now);
        var made := Provision(c, p, id, now);
        TakeExclusive(c, made, id, session, protocol, now);
        TakeContiguous(c, made, id, session, protocol, now);
      }
  }

  lemma StartRebuildKeepsInv(c: Config, p: Pool, q: Pool, vm: string)
    requires vm in p.vms && p.rebuilds[vm] == 0
    requires q == StartRebuild(p, vm)
    requires Holders(p, vm) == {}
    requires forall v :: v in p.vms && v != vm ==> Exclusive(p, v)
    requires forall s :: s in p.leases ==> p.leases[s].session == s && p.leases[s].vm in p.vms
    requires forall v :: v in p.rebuilds ==> v in p.vms
    ensures AllExclusive(q)
    ensures Contiguous(c, p) ==> Contiguous(c, q)
    ensures |q.vms| == |p.vms|
  {
  }

  ghost predicate Live(p: Pool, l: Lease) {
    l.session in p.leases && p.leases[l.session] == l
  }

  lemma ReleaseKeepsInv(c: Config, p: Pool, l: Lease)
    requires Inv(c, p) && Live(p, l)
    ensures Inv(c, Release(p, l))
    ensures Release(p, l).vms[l.vm].state.Rebuilding?
  {
    var mid := p.(leases := p.leases - {l.session});
    assert Exclusive(p, l.vm);
    assert l.session in Holders(p, l.vm);
    var s :| s in p.leases && Holders(p, l.vm) == {s};
    assert s == l.session;
    assert Holders(mid, l.vm) == Holders(p, l.vm) - {s};
    forall v | v in mid.vms && v != l.vm ensures Exclusive(mid, v) {
      assert Exclusive(p, v);
      assert Holders(mid, v) == Holders(p, v);
      if p.vms[v].state.Leased? {
        var r :| r in p.leases && Holders(p, v) == {r};
        assert r in Holders(p, v);
        assert r in mid.leases;
      }
    }
    StartRebuildKeepsInv(c, mid, Release(p, l), l.vm);
  }

  lemma RebuildDoneKeepsInv(c: Config, p: Pool, vm: string, now: real)
    requires Inv(c, p) && vm in p.rebuilds
    ensures Inv(c, RebuildDone(p, vm, now))
    ensures vm in p.vms && RebuildDone(p, vm, now).vms[vm].state.Ready?
  {
    var q := RebuildDone(p, vm, now);
    assert Exclusive(p, vm);
    assert q.vms.Keys == p.vms.Keys;
    assert |q.vms| == |q.vms.Keys| == |p.vms.Keys| == |p.vms|;
    forall v | v in q.vms ensures Exclusive(q, v) {
      assert Exclusive(p, v);
      assert Holders(q, v) == Holders(p, v);
    }
  }

  lemma CheckKeepsInv(c: Config, p: Pool, vm: string, due: bool)
    requires Inv(c, p)
    ensures Inv(c, Check(p, vm, due))
  {
    if vm in p.vms && p.vms[vm].state.Ready? && due {
      assert Exclusive(p, vm);
      StartRebuildKeepsInv(c, p, StartRebuild(p, vm), vm);
    }
  }

  lemma {:induction false} CheckEachKeepsInv(c: Config, p: Pool, ids: seq<string>, due: set<string>)
    requires Inv(c, p)
    ensures Inv(c, CheckEach(p, ids, due))
    decreases |ids|
  {
    hide Inv, Check;
    if ids != [] {
      CheckKeepsInv(c, p, ids[0], ids[0] in due);
      CheckEachKeepsInv(c, Check(p, ids[0], ids[0] in due), ids[1..], due);
    }
  }

  /** The failure report finds a VM that is leased. */
  predicate HitsLeased(p: Pool, host: string) {
    var vm := VmAt(p.order, p.vms, host);
    vm.Some? && p.vms[vm.value].state.Leased?
  }

  /** A failure report keeps exclusivity exactly when it does not hit a leased VM: hitting
      one starts a rebuild while the lease stays alive. */
  lemma ReportFailureKeepsInvIff(c: Config, p: Pool, host: string)
    requires Inv(c, p)
    ensures Inv(c, ReportFailure(p, host)) <==> !HitsLeased(p, host)
  {
    if HitsLeased(p, host) {
      var vm := VmAt(p.order, p.vms, host).value;
      var q := ReportFailure(p, host);
      assert Exclusive(p, vm);
      assert Holders(q, vm) == Holders(p, vm) != {};
      assert !Exclusive(q, vm);
    }
  }

  // ----- what each step changes, and what it leaves -----

  /** `v` is the first VM in insertion order with the property. */
  ghost predicate IsFirst(order: seq<string>, v: string, holds: string -> bool) {
    exists i :: 0 <= i < |order| && order[i] == v && holds(v) && forall j :: 0 <= j < i ==> !holds(order[j])
  }

  lemma {:induction false} FirstReadyFirst(order: seq<string>, vms: map<string, Vm>)
    ensures FirstReady(order, vms).Some? ==>
      IsFirst(order, FirstReady(order, vms).value, v => v in vms && vms[v].state.Ready?)
  {
    if order != [] && !(order[0] in vms && vms[order[0]].state.Ready?) {
      FirstReadyFirst(order[1..], vms);
      FirstLater(order, FirstReady(order, vms), v => v in vms && vms[v].state.Ready?);
    }
  }

  lemma FirstLater(order: seq<string>, r: Option<string>, holds: string -> bool)
    requires order != [] && !holds(order[0]) && (r.Some? ==> IsFirst(order[1..], r.value, holds))
    ensures r.Some? ==> IsFirst(order, r.value, holds)
  {
    if r.Some? {
      var rest := order[1..];
      var i :| 0 <= i < |rest| && rest[i] == r.value && holds(r.value) && forall j :: 0 <= j < i ==> !holds(rest[j]);
      assert order[i + 1] == r.value;
      assert forall j :: 0 < j <= i ==> order[j] == rest[j - 1];
    }
  }

  lemma {:induction false} VmAtFirst(order: seq<string>, vms: map<string, Vm>, host: string)
    ensures
      var r := VmAt(order, vms, host);
      if r.Some? then IsFirst(order, r.value, v => v in vms && vms[v].ip == host)
      else forall v :: v in order && v in vms ==> vms[v].ip != host
  {
    if order != [] && !(order[0] in vms && vms[order[0]].ip == host) {
      VmAtFirst(order[1..], vms, host);
      FirstLater(order, VmAt(order, vms, host), v => v in vms && vms[v].ip == host);
    }
  }

  /** A lease names the address of its VM and the port of its protocol. The VM is the first
      ready one, or, when none is, a new one with the next id at the configured address. It
      alone changes, and only that lease is added. */
  lemma ReserveExact(c: Config, p: Pool, session: string, protocol: string, now: real)
    requires Inv(c, p)
    ensures
      var (q, l) := Reserve(c, p, session, protocol, now);
      if l.None? then q == p
      else
        var v := l.value.vm;
        var ip := if v in p.vms then p.vms[v].ip else c.provisionIp;
        && l.value == Lease(ip, if protocol == "ssh" then c.sshPort else c.telnetPort, v, protocol, session)
        && q.leases == p.leases[session := l.value] && q.rebuilds == p.rebuilds
        && q.vms == p.vms[v := Vm(Leased, ip, now)]
        && (if v in p.vms then q.order == p.order && IsFirst(p.order, v, u => u in p.vms && p.vms[u].state.Ready?)
            else
              && v == c.tag + "-" + Decimal(|p.vms| + 1) && q.order == p.order + [v]
              && forall u :: u in p.vms ==> !p.vms[u].state.Ready?)
  {
    hide AllExclusive;
    FirstReadyFirst(p.order, p.vms);
    ProvisionIsNew(c, p);
  }

  /** A release ends its lease and starts one rebuild of its VM, whatever else there is. */
  lemma ReleaseExact(p: Pool, l: Lease, v: string)
    requires l.vm in p.vms
    ensures
      var q := Release(p, l);
      && q.order == p.order && q.vms.Keys == p.vms.Keys
      && (v in p.vms ==> q.vms[v] == if v == l.vm then Vm(Rebuilding, p.vms[v].ip, p.vms[v].lastUsed) else p.vms[v])
      && q.rebuilds[v] == p.rebuilds[v] + (if v == l.vm then 1 else 0)
      && q.leases == p.leases - {l.session}
  {
  }

  /** A completed rebuild is one task fewer and a VM ready and just used. */
  lemma RebuildDoneExact(p: Pool, vm: string, now: real, v: string)
    requires vm in p.vms && vm in p.rebuilds
    ensures
      var q := RebuildDone(p, vm, now);
      && q.order == p.order && q.vms.Keys == p.vms.Keys && q.leases == p.leases
      && (v in p.vms ==> q.vms[v] == if v == vm then Vm(Ready, p.vms[v].ip, now) else p.vms[v])
      && q.rebuilds[v] == p.rebuilds[v] - (if v == vm then 1 else 0)
  {
  }

  /** A pass rebuilds exactly the ready VMs that are due. */
  lemma {:induction false} CheckEachExact(p: Pool, ids: seq<string>, due: set<string>, v: string)
    ensures
      var q := CheckEach(p, ids, due);
      && q.order == p.order && q.vms.Keys == p.vms.Keys && q.leases == p.leases
      && (v in p.vms ==>
            var hit := v in ids && v in due && p.vms[v].state.Ready?;
            && q.vms[v] == (if hit then Vm(Rebuilding, p.vms[v].ip, p.vms[v].lastUsed) else p.vms[v])
            && q.rebuilds[v] == p.rebuilds[v] + (if hit then 1 else 0))
    decreases |ids|
  {
    if ids != [] {
      CheckEachExact(Check(p, ids[0], ids[0] in due), ids[1..], due, v);
      assert ids == [ids[0]] + ids[1..];
    }
  }

  /** A failure report changes nothing but the first VM at the address, and that only when it
      is leased: then a rebuild of it starts. */
  lemma ReportFailureExact(p: Pool, host: string, v: string)
    ensures
      var q := ReportFailure(p, host);
      var hit := v in p.vms && p.vms[v].state.Leased? && IsFirst(p.order, v, u => u in p.vms && p.vms[u].ip == host);
      && q.order == p.order && q.vms.Keys == p.vms.Keys && q.leases == p.leases
      && (v in p.vms ==> q.vms[v] == if hit then Vm(Rebuilding, p.vms[v].ip, p.vms[v].lastUsed) else p.vms[v])
      && q.rebuilds[v] == p.rebuilds[v] + (if hit then 1 else 0)
  {
    VmAtFirst(p.order, p.vms, host);
  }

  // ----- runs -----

  datatype Step =
    | ReserveStep(session: string, protocol: string, now: real)
    | ReleaseStep(lease: Lease)
    | RebuildStep(vm: string, now: real)
    | CheckStep(ids: seq<string>, due: set<string>)
    | FailureStep(host: string)

  /** Sessions reserve once at a time, leases are released at most once, pending rebuilds
      complete, and no failure is reported for a leased VM. */
  ghost predicate Allowed(p: Pool, step: Step) {
    match step
    case ReserveStep(session, _, _) => session !in p.leases
    case ReleaseStep(l) => Live(p, l)
    case RebuildStep(vm, _) => vm in p.rebuilds
    case CheckStep(_, _) => true
    case FailureStep(host) => !HitsLeased(p, host)
  }

  function Apply(c: Config, p: Pool, step: Step): Pool {
    match step
    case ReserveStep(session, protocol, now) => Reserve(c, p, session, protocol, now).0
    case ReleaseStep(l) => Release(p, l)
    case RebuildStep(vm, now) => RebuildDone(p, vm, now)
    case CheckStep(ids, due) => CheckEach(p, ids, due)
    case FailureStep(host) => ReportFailure(p, host)
  }

  function Run(c: Config, p: Pool, steps: seq<Step>): Pool
    decreases |steps|
  {
    if steps == [] then p else Run(c, Apply(c, p, steps[0]), steps[1..])
  }

  ghost predicate AllAllowed(c: Config, p: Pool, steps: seq<Step>)
    decreases |steps|
  {
    steps == [] || (Allowed(p, steps[0]) && AllAllowed(c, Apply(c, p, steps[0]), steps[1..]))
  }

  /** The pool that start-up builds from the VMs it has found. */
  function Discovered(found: seq<string>, ips: map<string, string>, now: real): Pool
    requires forall v :: v in found ==> v in ips
  {
    Pool(found, map v | v in found :: Vm(Ready, ips[v], now), map[], multiset{})
  }

  /** It satisfies the invariant exactly when the VMs found are numbered from one without gaps
      and are no more than the pool may have. */
  lemma StartInvIff(c: Config, found: seq<string>, ips: map<string, string>, now: real)
    requires forall v :: v in found ==> v in ips
    requires |found| == |set v | v in found|
    ensures Inv(c, Discovered(found, ips, now)) <==>
      && (forall v :: v in found ==> NumberedUpTo(c, v, |found|))
      && |found| <= (if c.maxVms > 0 then c.maxVms else 0)
  {
    hide NumberedUpTo;
    var p := Discovered(found, ips, now);
    assert p.vms.Keys == set v | v in found;
    assert |p.vms| == |p.vms.Keys|;
    assert forall vm :: Holders(p, vm) == {};
  }

  /** Lease exclusivity, contiguous ids and the bound on the number of VMs hold after every
      interleaving of reservations, releases, completed rebuilds and checks. */
  lemma {:induction false} RunsAreExclusive(c: Config, p: Pool, steps: seq<Step>)
    requires Inv(c, p) && AllAllowed(c, p, steps)
    ensures Inv(c, Run(c, p, steps))
    decreases |steps|
  {
    hide Inv, Reserve, Release, RebuildDone, CheckEach, ReportFailure;
    if steps != [] {
      match steps[0] {
        case ReserveStep(session, protocol, now) => ReserveKeepsInv(c, p, session, protocol, now);
        case ReleaseStep(l) => ReleaseKeepsInv(c, p, l);
        case RebuildStep(vm, now) => RebuildDoneKeepsInv(c, p, vm, now);
        case CheckStep(ids, due) => CheckEachKeepsInv(c, p, ids, due);
        case FailureStep(host) => ReportFailureKeepsInvIff(c, p, host);
      }
      RunsAreExclusive(c, Apply(c, p, steps[0]), steps[1..]);
    }
  }

  lemma TakeShares(c: Config, p: Pool, vm: string, session: string, protocol: string, now: real)
    requires vm in p.vms && session !in p.leases
    ensures Holders(Take(c, p, vm, session, protocol, now).0, vm) == Holders(p, vm) + {session}
  {
  }

  /** After a failure report on a leased VM and the end of the rebuild it starts, the VM is
      ready while its lease is still alive, so the next reservation that picks it shares it. */
  lemma FailureSharesVm(c: Config, p: Pool, host: string, session: string, protocol: string, now: real)
    requires Inv(c, p) && HitsLeased(p, host) && session !in p.leases
    ensures
      var vm := VmAt(p.order, p.vms, host).value;
      var rebuilt := RebuildDone(ReportFailure(p, host), vm, now);
      && vm in ReportFailure(p, host).rebuilds
      && vm in rebuilt.vms && rebuilt.vms[vm].state.Ready?
      && (FirstReady(rebuilt.order, rebuilt.vms) == Some(vm) ==>
            exists s :: s != session && Holders(Reserve(c, rebuilt, session, protocol, now).0, vm) == {s, session})
  {
    hide VmAt, FirstReady, VmId, Contiguous;
    var vm := VmAt(p.order, p.vms, host).value;
    var rebuilt := RebuildDone(ReportFailure(p, host), vm, now);
    assert Exclusive(p, vm);
    var s :| s in p.leases && Holders(p, vm) == {s};
    TakeShares(c, rebuilt, vm, session, protocol, now);
    assert Holders(rebuilt, vm) == Holders(p, vm);
    if FirstReady(rebuilt.order, rebuilt.vms) == Some(vm) {
      var q := Reserve(c, rebuilt, session, protocol, now).0;
      assert s != session && Holders(q, vm) == {s, session};
    }
  }

  /** A release after a failure report on the lease's VM starts a second rebuild. When the
      first one ends the VM is handed out again, and when the second ends it is ready while
      the new lease on it is alive. */
  lemma FailureThenRelease(c: Config, p: Pool, host: string, l: Lease, session: string, protocol: string, now: real)
    requires Inv(c, p) && HitsLeased(p, host) && Live(p, l) && Some(l.vm) == VmAt(p.order, p.vms, host)
    requires session !in p.leases
    ensures
      var released := Release(ReportFailure(p, host), l);
      var once := RebuildDone(released, l.vm, now);
      && released.rebuilds[l.vm] == 2
      && (FirstReady(once.order, once.vms) == Some(l.vm) ==>
            var (leased, lease) := Reserve(c, once, session, protocol, now);
            var twice := RebuildDone(leased, l.vm, now);
            && lease.Some? && lease.value.vm == l.vm && leased.rebuilds[l.vm] == 1
            && twice.vms[l.vm].state.Ready? && Holders(twice, l.vm) == {session})
  {
    hide VmAt, FirstReady, VmId, Contiguous;
    assert Exclusive(p, l.vm);
    assert l.session in Holders(p, l.vm);
    var released := Release(ReportFailure(p, host), l);
    var once := RebuildDone(released, l.vm, now);
    assert Holders(once, l.vm) == Holders(p, l.vm) - {l.session} == {};
    if FirstReady(once.order, once.vms) == Some(l.vm) {
      TakeShares(c, once, l.vm, session, protocol, now);
      var leased := Reserve(c, once, session, protocol, now).0;
      assert Holders(RebuildDone(leased, l.vm, now), l.vm) == Holders(leased, l.vm);
    }
  }

  // ----- the pool object -----

  class LibvirtPool {
    const config: Config
    var order: seq<string>
    var vms: map<string, Vm>
    var leases: map<string, Lease>
    var rebuilds: multiset<string>

    ghost function State(): Pool
      reads this
    {
      Pool(order, vms, leases, rebuilds)
    }

    /** The VMs discovered at start-up are all ready. */
    constructor (config: Config, found: seq<string>, ips: map<string, string>, now: real)
      requires forall v :: v in found ==> v in ips
      requires |found| == |set v | v in found|
      ensures this.config == config && State() == Discovered(found, ips, now)
    {
      this.config := config;
      order := found;
      vms := map v | v in found :: Vm(Ready, ips[v], now);
      leases, rebuilds := map[], multiset{};
    }

    method ReserveTarget(session: string, protocol: string, now: real) returns (lease: Option<Lease>)
      modifies this
      ensures (State(), lease) == Reserve(config, old(State()), session, protocol, now)
    {
      var ready := None;
      var i := 0;
      while i < |order| && ready.None?
        invariant 0 <= i <= |order| && vms == old(vms) && order == old(order)
        invariant FirstReady(order, vms) == if ready.Some? then ready else FirstReady(order[i..], vms)
        invariant ready.Some? ==> ready.value in vms
      {
        assert order[i..][0] == order[i] && order[i..][1..] == order[i + 1..];
        if order[i] in vms && vms[order[i]].state.Ready? {
          ready := Some(order[i]);
        }
        i := i + 1;
      }
      var selected;
      if ready.Some? {
        selected := ready.value;
      } else {
        if |vms| >= config.maxVms { return None; }
        selected := VmId(config, |vms| + 1);
        ProvisionVm(selected, now);
      }
      vms := vms[selected := vms[selected].(state := Leased, lastUsed := now)];
      var port := if protocol == "ssh" then config.sshPort else config.telnetPort;
      var l := Lease(vms[selected].ip, port, selected, protocol, session);
      leases := leases[session := l];
      lease := Some(l);
    }

    method ProvisionVm(id: string, now: real)
      modifies this`order, this`vms
      ensures State() == Provision(config, old(State()), id, now)
    {
      if id !in vms { order := order + [id]; }
      vms := vms[id := Vm(Rebuilding, config.provisionIp, now)];
      vms := vms[id := vms[id].(state := Ready)];
    }

    method ReleaseTarget(lease: Lease)
      modifies this
      ensures State() == Release(old(State()), lease)
    {
      if lease.session in leases { leases := leases - {lease.session}; }
      if lease.vm in vms {
        vms := vms[lease.vm := vms[lease.vm].(state := Rebuilding)];
        rebuilds := rebuilds + multiset{lease.vm};
      }
    }

    method FinishRebuild(vm: string, now: real)
      modifies this
      ensures State() == RebuildDone(old(State()), vm, now)
    {
      if vm in vms {
        vms := vms[vm := vms[vm].(state := Ready, lastUsed := now)];
      }
      rebuilds := rebuilds - multiset{vm};
    }

    method ReportHostFailure(host: string)
      modifies this
      ensures State() == ReportFailure(old(State()), host)
    {
      var i := 0;
      while i < |order|
        invariant 0 <= i <= |order| && State() == old(State())
        invariant VmAt(order, vms, host) == VmAt(order[i..], vms, host)
      {
        var vm := order[i];
        assert order[i..][0] == vm && order[i..][1..] == order[i + 1..];
        if vm in vms && vms[vm].ip == host {
          if vms[vm].state.Leased? {
            vms := vms[vm := vms[vm].(state := Rebuilding)];
            rebuilds := rebuilds + multiset{vm};
          }
          return;
        }
        i := i + 1;
      }
    }

    /** One pass of the health or recycling loop; `due` are the VMs found inactive, or
        unused for longer than the timeout, and empty without a connection. */
    method CheckPass(due: set<string>)
      modifies this
      ensures State() == CheckEach(old(State()), old(order), due)
    {
      var i := 0;
      while i < |order|
        invariant 0 <= i <= |order| && order == old(order)
        invariant CheckEach(old(State()), order, due) == CheckEach(State(), order[i..], due)
      {
        var vm := order[i];
        assert order[i..][0] == vm && order[i..][1..] == order[i + 1..];
        if vm in vms && vms[vm].state.Ready? && vm in due {
          vms := vms[vm := vms[vm].(state := Rebuilding)];
          rebuilds := rebuilds + multiset{vm};
        }
        i := i + 1;
      }
    }

    /** The VMs unused for longer than the timeout. */
    function Unused(now: real): set<string>
      reads this
    {
      set v | v in vms && now - vms[v].lastUsed > config.unusedTimeout
    }

    /** One pass of the recycling loop. */
    method RecyclePass(connected: bool, now: real)
      modifies this
      ensures
        var due := if connected then set v | v in old(vms) && now - old(vms)[v].lastUsed > config.unusedTimeout else {};
        State() == CheckEach(old(State()), old(order), due)
    {
      CheckPass(if connected then Unused(now) else {});
    }
  }
}
