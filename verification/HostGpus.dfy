/**
 * The GPU inventory and its transactional allocator
 * (qarax/src/model/host_gpus.rs), with the request the failover monitor derives
 * from a VM's current GPUs (qarax/src/ha_monitor.rs).
 */
module HostGpus {
  import opened Common

  type Host = nat
  type Vm = nat
  type GpuId = nat

  /** `pci` stands for the PCI address by its place in text order. */
  datatype Gpu = Gpu(host: Host, pci: nat, vendor: Option<string>, model: Option<string>, vram: Option<int>,
                     vm: Option<Vm>)

  type Inventory = map<GpuId, Gpu>

  datatype Request = Request(count: nat, vendor: Option<string>, model: Option<string>, minVram: Option<int>)

  /** A NULL column never satisfies a given requirement. */
  predicate Suits(g: Gpu, r: Request) {
    && (r.vendor.Some? ==> g.vendor == r.vendor)
    && (r.model.Some? ==> g.model == r.model)
    && (r.minVram.Some? ==> g.vram.Some? && g.vram.value >= r.minVram.value)
  }

  function Owned(t: Inventory, vm: Vm): set<GpuId> {
    set id | id in t && t[id].vm == Some(vm)
  }

  /** The rows allocate_gpus may take: free, suitable, on the host and not locked by another transaction. */
  function Available(t: Inventory, host: Host, r: Request, locked: set<GpuId>): set<GpuId> {
    set id | id in t && t[id].host == host && t[id].vm.None? && Suits(t[id], r) && id !in locked
  }

  function Assign(t: Inventory, ids: set<GpuId>, vm: Option<Vm>): Inventory {
    map id | id in t :: if id in ids then t[id].(vm := vm) else t[id]
  }

  function Release(t: Inventory, vm: Vm): Inventory {
    Assign(t, Owned(t, vm), None)
  }

  /** `taken` is the first `count` available rows in PCI order, or all of them. */
  predicate FirstByPci(t: Inventory, available: set<GpuId>, taken: set<GpuId>, count: nat) {
    && taken <= available <= t.Keys
    && |taken| == (if |available| <= count then |available| else count)
    && forall a, b :: a in taken && b in available && b !in taken ==> t[a].pci <= t[b].pci
  }

  lemma LowestPci(t: Inventory, ids: set<GpuId>)
    requires ids != {} && ids <= t.Keys
    ensures exists a :: a in ids && forall b :: b in ids ==> t[a].pci <= t[b].pci
  {
    var key := (id: GpuId) => if id in t then t[id].pci else 0;
    var a := Least(ids, key);
    assert forall b :: b in ids ==> key(a) <= key(b) && t[a].pci <= t[b].pci;
  }

  /** ORDER BY pci_address LIMIT count. */
  method TakeFirst(t: Inventory, available: set<GpuId>, count: nat) returns (taken: set<GpuId>)
    requires available <= t.Keys
    ensures FirstByPci(t, available, taken, count)
  {
    var left := available;
    taken := {};
    while left != {} && |taken| < count
      invariant left <= available && taken == available - left && |taken| + |left| == |available|
      invariant |taken| <= count
      invariant forall a, b :: a in taken && b in left ==> t[a].pci <= t[b].pci
      decreases |left|
    {
      LowestPci(t, left);
      var id :| id in left && forall b :: b in left ==> t[id].pci <= t[b].pci;
      taken, left := taken + {id}, left - {id};
    }
  }

  class GpuTable {
    var gpus: Inventory

    /** allocate_gpus. */
    method Allocate(host: Host, vm: Vm, r: Request, locked: set<GpuId>) returns (taken: set<GpuId>)
      modifies this
      ensures FirstByPci(old(gpus), Available(old(gpus), host, r, locked), taken, r.count)
      ensures gpus == Assign(old(gpus), taken, Some(vm))
    {
      taken := TakeFirst(gpus, Available(gpus, host, r, locked), r.count);
      gpus := Assign(gpus, taken, Some(vm));
    }

    /** deallocate_by_vm_tx. */
    method Deallocate(vm: Vm)
      modifies this
      ensures gpus == Release(old(gpus), vm)
    {
      gpus := Release(gpus, vm);
    }

    /** reallocate_vm_gpus: both steps in one transaction, dropped unless enough rows were taken. */
    method Reallocate(vm: Vm, target: Host, r: Request, locked: set<GpuId>) returns (ok: bool)
      modifies this
      ensures Moved(old(gpus), gpus, vm, target, r, locked, ok)
    {
      var saved := gpus;
      Deallocate(vm);
      var taken := Allocate(target, vm, r, locked);
      ok := |taken| >= r.count;
      if !ok {
        gpus := saved;
      } else {
        TakenIsOwned(Release(saved, vm), taken, vm);
        SameReleased(saved, gpus, vm, taken);
      }
    }
  }

  /** All or nothing, and success exactly when the target has enough once the VM's own rows are released. */
  ghost predicate Moved(t: Inventory, t': Inventory, vm: Vm, target: Host, r: Request, locked: set<GpuId>, ok: bool) {
    && (ok <==> |Available(Release(t, vm), target, r, locked)| >= r.count)
    && (!ok ==> t' == t)
    && (ok ==> |Owned(t', vm)| == r.count && Release(t', vm) == Release(t, vm))
    && (ok ==> forall id :: id in Owned(t', vm) ==> id in Available(Release(t, vm), target, r, locked))
    && (ok ==> forall id, other ::
          id in Owned(t', vm) && other in Available(Release(t, vm), target, r, locked) && other !in Owned(t', vm)
          ==> t[id].pci <= t[other].pci)
    && (forall other :: other != vm ==> Owned(t', other) == Owned(t, other))
  }

  /** The GPU has what is asked for, wherever something is asked for. */
  ghost predicate Meets(g: Gpu, r: Request) {
    && (match r.vendor case None => true case Some(v) => g.vendor == Some(v))
    && (match r.model case None => true case Some(m) => g.model == Some(m))
    && (match r.minVram case None => true case Some(least) => g.vram.Some? && least <= g.vram.value)
  }

  /** A GPU a VM may be given: on the host, free or its own, unlocked, and as asked for. */
  ghost predicate Eligible(t: Inventory, vm: Vm, host: Host, r: Request, locked: set<GpuId>, id: GpuId) {
    && id in t && t[id].host == host && (t[id].vm == None || t[id].vm == Some(vm)) && id !in locked && Meets(t[id], r)
  }

  /**
   * A move gives the VM exactly as many eligible GPUs as asked for, those first on the bus,
   * iff there are that many; no other row changes, and nothing changes otherwise.
   */
  lemma MovedMeans(t: Inventory, t': Inventory, vm: Vm, target: Host, r: Request, locked: set<GpuId>, ok: bool)
    requires Moved(t, t', vm, target, r, locked, ok)
    ensures ok <==> |set id | id in t && Eligible(t, vm, target, r, locked, id)| >= r.count
    ensures !ok ==> t' == t
    ensures ok ==> t'.Keys == t.Keys && |set id | id in t' && t'[id].vm == Some(vm)| == r.count
    ensures ok ==> forall id :: id in t' && t'[id].vm == Some(vm) ==>
              Eligible(t, vm, target, r, locked, id)
              && forall other :: Eligible(t, vm, target, r, locked, other) && t'[other].vm != Some(vm)
                   ==> t[id].pci <= t[other].pci
    ensures ok ==> forall id :: id in t' && t'[id].vm != Some(vm) ==>
              t'[id] == if t[id].vm == Some(vm) then t[id].(vm := None) else t[id]
  {
    var free := Available(Release(t, vm), target, r, locked);
    forall id ensures id in free <==> Eligible(t, vm, target, r, locked, id) {
      assert id in t ==> (Suits(t[id], r) <==> Meets(t[id], r));
    }
    assert free == set id | id in t && Eligible(t, vm, target, r, locked, id);
    assert Owned(t', vm) == set id | id in t' && t'[id].vm == Some(vm);
    if ok {
      ReleasedRows(t, t', vm);
    }
  }

  lemma ReleasedRows(t: Inventory, t': Inventory, vm: Vm)
    requires Release(t', vm) == Release(t, vm)
    ensures t'.Keys == t.Keys
    ensures forall id :: id in t' && t'[id].vm != Some(vm) ==>
              t'[id] == if t[id].vm == Some(vm) then t[id].(vm := None) else t[id]
  {
    assert t'.Keys == Release(t', vm).Keys && t.Keys == Release(t, vm).Keys;
    forall id | id in t' && t'[id].vm != Some(vm)
      ensures t'[id] == if t[id].vm == Some(vm) then t[id].(vm := None) else t[id]
    {
      assert Release(t', vm)[id] == t'[id];
    }
  }

  lemma TakenIsOwned(t: Inventory, taken: set<GpuId>, vm: Vm)
    requires taken <= t.Keys && Owned(t, vm) == {} && forall id :: id in taken ==> t[id].vm.None?
    ensures Owned(Assign(t, taken, Some(vm)), vm) == taken
    ensures Release(Assign(t, taken, Some(vm)), vm) == t
    ensures forall other :: other != vm ==> Owned(Assign(t, taken, Some(vm)), other) == Owned(t, other)
  {
    var t' := Assign(t, taken, Some(vm));
    assert forall id :: id in t && t[id].vm == Some(vm) ==> id in Owned(t, vm);
    assert Owned(t', vm) == taken;
    assert forall id :: id in t ==> Release(t', vm)[id] == t[id];
  }

  lemma SameReleased(t: Inventory, t': Inventory, vm: Vm, taken: set<GpuId>)
    requires t' == Assign(Release(t, vm), taken, Some(vm)) && taken <= t.Keys
    ensures forall other :: other != vm ==> Owned(Release(t, vm), other) == Owned(t, other)
  {
  }

  /* ---- the request derived from what a VM holds ---- */

  function FirstVendor(rows: seq<Gpu>): Option<string> {
    if rows == [] then None else if rows[0].vendor.Some? then rows[0].vendor else FirstVendor(rows[1..])
  }

  function FirstModel(rows: seq<Gpu>): Option<string> {
    if rows == [] then None else if rows[0].model.Some? then rows[0].model else FirstModel(rows[1..])
  }

  function LeastVram(rows: seq<Gpu>): Option<int> {
    if rows == [] then None
    else
      var rest := LeastVram(rows[1..]);
      if rows[0].vram.None? then rest
      else if rest.None? || rows[0].vram.value <= rest.value then rows[0].vram else rest
  }

  /** gpu_request_for_vm. */
  function RequestFor(rows: seq<Gpu>): Option<Request> {
    if rows == [] then None else Some(Request(|rows|, FirstVendor(rows), FirstModel(rows), LeastVram(rows)))
  }

  /** Same vendor and same model throughout, unknown counting as a value, and memory sizes all known or all unknown. */
  predicate Uniform(rows: seq<Gpu>) {
    forall a, b :: a in rows && b in rows ==> a.vendor == b.vendor && a.model == b.model && a.vram.Some? == b.vram.Some?
  }

  lemma {:induction false} FirstVendorMeans(rows: seq<Gpu>)
    ensures FirstVendor(rows).None? <==> forall g :: g in rows ==> g.vendor.None?
    ensures FirstVendor(rows).Some? ==> exists g :: g in rows && g.vendor == FirstVendor(rows)
  {
    if rows != [] {
      assert rows == [rows[0]] + rows[1..];
      FirstVendorMeans(rows[1..]);
    }
  }

  lemma {:induction false} FirstVendorIsFirst(rows: seq<Gpu>, i: nat)
    requires i < |rows| && rows[i].vendor.Some? && forall j :: 0 <= j < i ==> rows[j].vendor.None?
    ensures FirstVendor(rows) == rows[i].vendor
  {
    if i > 0 {
      FirstVendorIsFirst(rows[1..], i - 1);
    }
  }

  lemma {:induction false} FirstModelMeans(rows: seq<Gpu>)
    ensures FirstModel(rows).None? <==> forall g :: g in rows ==> g.model.None?
    ensures FirstModel(rows).Some? ==> exists g :: g in rows && g.model == FirstModel(rows)
  {
    if rows != [] {
      assert rows == [rows[0]] + rows[1..];
      FirstModelMeans(rows[1..]);
    }
  }

  lemma {:induction false} FirstModelIsFirst(rows: seq<Gpu>, i: nat)
    requires i < |rows| && rows[i].model.Some? && forall j :: 0 <= j < i ==> rows[j].model.None?
    ensures FirstModel(rows) == rows[i].model
  {
    if i > 0 {
      FirstModelIsFirst(rows[1..], i - 1);
    }
  }

  lemma {:induction false} LeastVramMeans(rows: seq<Gpu>)
    ensures LeastVram(rows).None? <==> forall g :: g in rows ==> g.vram.None?
    ensures LeastVram(rows).Some? ==> forall g :: g in rows && g.vram.Some? ==> g.vram.value >= LeastVram(rows).value
    ensures LeastVram(rows).Some? ==> exists g :: g in rows && g.vram == LeastVram(rows)
  {
    if rows != [] {
      assert rows == [rows[0]] + rows[1..];
      LeastVramMeans(rows[1..]);
    }
  }

  /** A VM without GPUs asks for none; any other for as many as it has. */
  lemma RequestCounts(rows: seq<Gpu>)
    ensures RequestFor(rows).None? <==> rows == []
    ensures RequestFor(rows).Some? ==> RequestFor(rows).value.count == |rows|
  {
  }

  /** The derived request fits the GPUs it was derived from exactly when they are uniform. */
  lemma RequestFitsIff(rows: seq<Gpu>)
    requires rows != []
    ensures (forall g :: g in rows ==> Suits(g, RequestFor(rows).value)) <==> Uniform(rows)
  {
    FirstVendorMeans(rows);
    FirstModelMeans(rows);
    LeastVramMeans(rows);
  }

  /** `rows` are the table rows of the VM's GPUs. */
  ghost predicate ListsOwned(rows: seq<Gpu>, t: Inventory, vm: Vm) {
    && |rows| == |Owned(t, vm)|
    && (forall id :: id in Owned(t, vm) ==> t[id] in rows)
    && (forall g :: g in rows ==> exists id :: id in Owned(t, vm) && t[id] == g)
  }

  /**
   * Moving a uniform allocation away and back always succeeds when nobody else
   * touches the table in between, wherever the first move went.
   */
  lemma MoveAwayAndBack(rows: seq<Gpu>, t: Inventory, t': Inventory, t'': Inventory, vm: Vm, home: Host, target: Host,
                        locked: set<GpuId>, ok: bool)
    requires ListsOwned(rows, t, vm) && rows != [] && Uniform(rows)
    requires forall id :: id in Owned(t, vm) ==> t[id].host == home
    requires Moved(t, t', vm, target, RequestFor(rows).value, locked, true)
    requires Moved(t', t'', vm, home, RequestFor(rows).value, {}, ok)
    ensures ok && |Owned(t'', vm)| == |Owned(t, vm)| && forall id :: id in Owned(t'', vm) ==> t''[id].host == home
  {
    var r := RequestFor(rows).value;
    RequestFitsIff(rows);
    forall id | id in Owned(t, vm) ensures id in Available(Release(t, vm), home, r, {}) {
      assert t[id] in rows && Suits(t[id], r);
    }
    SubsetSize(Owned(t, vm), Available(Release(t, vm), home, r, {}));
  }

  /**
   * After any successful move away, the move back succeeds exactly when the suitable
   * GPUs at home that are free, or were the VM's own, are at least as many as asked for.
   */
  lemma ReturnIff(t: Inventory, t': Inventory, t'': Inventory, vm: Vm, home: Host, target: Host, r: Request,
                  locked: set<GpuId>, lockedBack: set<GpuId>, ok: bool)
    requires Moved(t, t', vm, target, r, locked, true) && Moved(t', t'', vm, home, r, lockedBack, ok)
    ensures ok <==> |Returnable(t, vm, home, r, lockedBack)| >= r.count
  {
    assert Available(Release(t', vm), home, r, lockedBack) == Returnable(t, vm, home, r, lockedBack);
  }

  function Returnable(t: Inventory, vm: Vm, home: Host, r: Request, locked: set<GpuId>): set<GpuId> {
    set id | id in t && t[id].host == home && (t[id].vm.None? || t[id].vm == Some(vm)) && Suits(t[id], r)
      && id !in locked
  }

  /** A mixed allocation has a row its own request refuses, so coming back needs other free GPUs. */
  lemma MixedRefusesOwn(rows: seq<Gpu>, t: Inventory, vm: Vm)
    requires ListsOwned(rows, t, vm) && rows != [] && !Uniform(rows)
    ensures exists id :: id in Owned(t, vm) && id !in Available(Release(t, vm), t[id].host, RequestFor(rows).value, {})
  {
    RequestFitsIff(rows);
    var g :| g in rows && !Suits(g, RequestFor(rows).value);
    var id :| id in Owned(t, vm) && t[id] == g;
  }

  function OfVendor(host: Host, pci: nat, vendor: string, vm: Option<Vm>): Gpu {
    Gpu(host, pci, Some(vendor), None, None, vm)
  }

  /** One GPU each of two vendors at home, and two of the first vendor free elsewhere. */
  const MIXED: Inventory := map[
    0 := OfVendor(0, 0, "a", Some(0)), 1 := OfVendor(0, 1, "b", Some(0)),
    2 := OfVendor(1, 0, "a", None), 3 := OfVendor(1, 1, "a", None)]

  const MIXED_REQUEST := Request(2, Some("a"), None, None)

  lemma MixedRequest()
    ensures RequestFor([MIXED[0], MIXED[1]]) == Some(MIXED_REQUEST) && ListsOwned([MIXED[0], MIXED[1]], MIXED, 0)
  {
    var rows := [MIXED[0], MIXED[1]];
    assert rows[1..] == [MIXED[1]] && rows[1..][1..] == [];
    assert FirstVendor(rows) == Some("a");
    FirstModelMeans(rows);
    LeastVramMeans(rows);
    assert FirstModel(rows) == None && LeastVram(rows) == None;
    assert Owned(MIXED, 0) == {0, 1};
  }

  lemma MixedFits()
    ensures |Available(Release(MIXED, 0), 1, MIXED_REQUEST, {})| >= 2
  {
    var free := Available(Release(MIXED, 0), 1, MIXED_REQUEST, {});
    assert {2, 3} <= free;
    SubsetSize({2, 3}, free);
  }

  lemma MixedHome()
    ensures Returnable(MIXED, 0, 0, MIXED_REQUEST, {}) == {0}
  {
    assert "a"[0] != "b"[0];
  }

  /** A mixed allocation that moves away and cannot come back, though nobody else touched the table. */
  lemma MixedCannotReturn(t': Inventory, t'': Inventory, away: bool, back: bool)
    requires Moved(MIXED, t', 0, 1, MIXED_REQUEST, {}, away) && Moved(t', t'', 0, 0, MIXED_REQUEST, {}, back)
    ensures away && !back
  {
    MixedFits();
    MixedHome();
    ReturnIff(MIXED, t', t'', 0, 0, 1, MIXED_REQUEST, {}, {}, back);
  }
}
