/**
 * The per-VM state machine of the Firecracker manager
 * (qarax-node/src/firecracker/mod.rs). One operation is one section under the
 * manager's lock; what the SDK answers is a parameter.
 */
module FirecrackerLifecycle {
  import opened Common

  datatype Status = Created | Running | Paused | Shutdown | Unknown

  datatype Client = NoClient | PreBoot | Live

  datatype Instance = Instance(status: Status, client: Client, process: bool)

  type Vms = map<string, Instance>

  /** What a live VM says about itself. */
  datatype Reported = NotStarted | IsRunning | IsPaused

  datatype Outcome =
    | Ok | NotFound | AlreadyExists | NoClientLeft | AlreadyStarted | NotRunning | NotRunningAfterPause
    | SdkError | IoError

  datatype Op =
    | CheckFree(vm: string)
    | FinishCreate(vm: string)
    | Start(vm: string, sdk: bool)
    | Stop(vm: string)
    | ForceStop(vm: string)
    | Pause(vm: string, sdk: bool)
    | Resume(vm: string, sdk: bool)
    | Delete(vm: string)
    | Describe(vm: string, answer: Option<Reported>)
    | Snapshot(vm: string, pauseOk: bool, dirOk: bool, sdk: bool)
    | BeginRestore(vm: string)
    | FinishRestore(vm: string)
    | Recover(vm: string, attached: bool, answer: Option<Reported>)

  /** A VM said to be running or paused can be talked to. */
  predicate Consistent(i: Instance) {
    i.status == Running || i.status == Paused ==> i.client == Live
  }

  ghost predicate AllConsistent(vms: Vms) {
    forall vm :: vm in vms ==> Consistent(vms[vm])
  }

  /** The status agrees with what the VM says, `idle` standing for one that was never started. */
  predicate Matches(status: Status, answer: Reported, idle: Status) {
    && (answer.IsRunning? <==> status == Running) && (answer.IsPaused? <==> status == Paused)
    && (answer.NotStarted? ==> status == idle)
  }

  /** Operations that put a new instance in place. */
  predicate Replaces(op: Op) {
    op.FinishCreate? || op.FinishRestore? || op.Recover?
  }

  class Manager {
    var vms: Vms

    constructor ()
      ensures vms == map[]
    {
      vms := map[];
    }

    method Start(vm: string, sdk: bool) returns (r: Outcome)
      requires AllConsistent(vms)
      modifies this
      ensures AllConsistent(vms) && vms.Keys == old(vms).Keys && Untouched(old(vms), vms, vm)
      ensures Did(old(vms), Op.Start(vm, sdk), vms, r)
    {
      if vm !in vms {
        return NotFound;
      }
      var client := vms[vm].client;
      if client == NoClient {
        return NoClientLeft;
      }
      vms := vms[vm := vms[vm].(client := NoClient)];
      if client != PreBoot {
        vms := vms[vm := vms[vm].(client := client)];
        return AlreadyStarted;
      }
      if !sdk {
        return SdkError;
      }
      vms := vms[vm := vms[vm].(client := Live)];
      vms := vms[vm := vms[vm].(status := Running)];
      r := Ok;
    }

    /** stop_vm and force_stop_vm trust the request: the VM counts as shut down whatever happens. */
    method StopWith(vm: string, kill: bool) returns (r: Outcome)
      requires AllConsistent(vms)
      modifies this
      ensures AllConsistent(vms) && vms.Keys == old(vms).Keys && Untouched(old(vms), vms, vm)
      ensures Did(old(vms), if kill then Op.ForceStop(vm) else Op.Stop(vm), vms, r)
    {
      if vm !in vms {
        return NotFound;
      }
      if kill {
        vms := vms[vm := vms[vm].(process := false)];
      }
      vms := vms[vm := vms[vm].(status := Shutdown)];
      r := Ok;
    }

    method Pause(vm: string, sdk: bool) returns (r: Outcome)
      requires AllConsistent(vms)
      modifies this
      ensures AllConsistent(vms) && vms.Keys == old(vms).Keys && Untouched(old(vms), vms, vm)
      ensures Did(old(vms), Op.Pause(vm, sdk), vms, r)
    {
      if vm !in vms {
        return NotFound;
      }
      if vms[vm].status == Paused {
        return Ok;
      }
      if vms[vm].client != Live {
        return NotRunning;
      }
      if !sdk {
        return SdkError;
      }
      vms := vms[vm := vms[vm].(status := Paused)];
      r := Ok;
    }

    method Resume(vm: string, sdk: bool) returns (r: Outcome)
      requires AllConsistent(vms)
      modifies this
      ensures AllConsistent(vms) && vms.Keys == old(vms).Keys && Untouched(old(vms), vms, vm)
      ensures Did(old(vms), Op.Resume(vm, sdk), vms, r)
    {
      if vm !in vms {
        return NotFound;
      }
      if vms[vm].client != Live {
        return NotRunning;
      }
      if !sdk {
        return SdkError;
      }
      vms := vms[vm := vms[vm].(status := Running)];
      r := Ok;
    }

    /** get_vm_info: an explicit shutdown is trusted over what the process still answers. */
    method Describe(vm: string, answer: Option<Reported>) returns (r: Outcome)
      requires AllConsistent(vms)
      modifies this
      ensures AllConsistent(vms) && vms.Keys == old(vms).Keys && Untouched(old(vms), vms, vm)
      ensures Did(old(vms), Op.Describe(vm, answer), vms, r)
    {
      if vm !in vms {
        return NotFound;
      }
      r := Ok;
      if vms[vm].status != Shutdown && vms[vm].client == Live && answer.Some? {
        vms := vms[vm := vms[vm].(status := match answer.value
                                            case IsRunning => Running
                                            case IsPaused => Paused
                                            case NotStarted => Created)];
      }
    }

    /** snapshot_vm: its second look at the client never fails. */
    method Snapshot(vm: string, pauseOk: bool, dirOk: bool, sdk: bool) returns (r: Outcome)
      requires AllConsistent(vms)
      modifies this
      ensures AllConsistent(vms) && vms.Keys == old(vms).Keys && Untouched(old(vms), vms, vm)
      ensures r != NotRunningAfterPause
      ensures Did(old(vms), Op.Snapshot(vm, pauseOk, dirOk, sdk), vms, r)
    {
      if vm !in vms {
        return NotFound;
      }
      if vms[vm].status != Paused {
        if vms[vm].client != Live {
          return NotRunning;
        }
        if !pauseOk {
          return SdkError;
        }
        vms := vms[vm := vms[vm].(status := Paused)];
      }
      if !dirOk {
        return IoError;
      }
      if vms[vm].client != Live {
        return NotRunningAfterPause;
      }
      r := if sdk then Ok else SdkError;
    }

    /** The remaining lock sections: creation, deletion, restore and recovery after a restart. */
    method Place(vm: string, i: Instance)
      requires AllConsistent(vms) && Consistent(i)
      modifies this
      ensures AllConsistent(vms) && vms == old(vms)[vm := i]
    {
      vms := vms[vm := i];
    }

    method Remove(vm: string) returns (r: Outcome)
      requires AllConsistent(vms)
      modifies this
      ensures AllConsistent(vms) && vms == old(vms) - {vm} && r == if vm in old(vms) then Ok else NotFound
    {
      r := if vm in vms then Ok else NotFound;
      vms := vms - {vm};
    }

    method Recover(vm: string, attached: bool, answer: Option<Reported>)
      requires AllConsistent(vms)
      modifies this
      ensures AllConsistent(vms) && Untouched(old(vms), vms, vm) && vm in vms
      ensures Did(old(vms), Op.Recover(vm, attached, answer), vms, Ok)
    {
      if !attached {
        Place(vm, Instance(Unknown, NoClient, false));
        return;
      }
      var status := match answer
        case Some(IsRunning) => Running
        case Some(IsPaused) => Paused
        case _ => Unknown;
      Place(vm, Instance(status, Live, false));
    }

    method Perform(op: Op) returns (r: Outcome)
      requires AllConsistent(vms)
      modifies this
      ensures AllConsistent(vms) && r != NotRunningAfterPause && Untouched(old(vms), vms, op.vm)
      ensures Did(old(vms), op, vms, r)
    {
      match op {
        case CheckFree(vm) => r := if vm in vms then AlreadyExists else Ok;
        case FinishCreate(vm) =>
          Place(vm, Instance(Created, PreBoot, true));
          r := Ok;
        case Start(vm, sdk) => r := Start(vm, sdk);
        case Stop(vm) => r := StopWith(vm, false);
        case ForceStop(vm) => r := StopWith(vm, true);
        case Pause(vm, sdk) => r := Pause(vm, sdk);
        case Resume(vm, sdk) => r := Resume(vm, sdk);
        case Delete(vm) => r := Remove(vm);
        case Describe(vm, answer) => r := Describe(vm, answer);
        case Snapshot(vm, pauseOk, dirOk, sdk) => r := Snapshot(vm, pauseOk, dirOk, sdk);
        case BeginRestore(vm) =>
          var removed := Remove(vm);
          r := Ok;
        case FinishRestore(vm) =>
          Place(vm, Instance(Running, Live, true));
          r := Ok;
        case Recover(vm, attached, answer) =>
          Recover(vm, attached, answer);
          r := Ok;
      }
    }

    /** Every run of operations, whatever the SDK answers. */
    method Run(ops: seq<Op>) returns (rs: seq<Outcome>, ghost states: seq<Vms>)
      requires AllConsistent(vms)
      modifies this
      ensures AllConsistent(vms) && |rs| == |ops| && forall i :: 0 <= i < |rs| ==> rs[i] != NotRunningAfterPause
      ensures IsRun(states, ops, rs) && states[0] == old(vms) && states[|ops|] == vms
      ensures forall vm :: vm in vms && vms[vm].status in {Running, Paused} ==> vms[vm].client == Live
      ensures forall vm :: Lost(old(vms), vm) && Unreplaced(ops, vm) ==> Lost(vms, vm) || vm !in vms
    {
      rs, states := [], [vms];
      for i := 0 to |ops|
        invariant IsRun(states, ops[..i], rs) && states[0] == old(vms) && states[i] == vms
        invariant AllConsistent(vms) && |rs| == i && forall k :: 0 <= k < i ==> rs[k] != NotRunningAfterPause
        invariant forall vm :: Lost(old(vms), vm) && Unreplaced(ops, vm) ==> Lost(vms, vm) || vm !in vms
      {
        ghost var before := vms;
        var r := Perform(ops[i]);
        if !Replaces(ops[i]) && Lost(before, ops[i].vm) {
          LostStays(before, ops[i], vms, r);
        }
        assert forall vm :: Unreplaced(ops, vm) && ops[i].vm == vm ==> !Replaces(ops[i]);
        assert forall vm :: ops[i].vm != vm ==> (Lost(before, vm) <==> Lost(vms, vm)) && (vm in before <==> vm in vms);
        RunGrows(states, ops, rs, i, vms, r);
        rs, states := rs + [r], states + [vms];
      }
      assert ops[..|ops|] == ops;
    }
  }

  /** What one operation does to its VM and reports. */
  ghost predicate Did(before: Vms, op: Op, after: Vms, r: Outcome) {
    match op
    case CheckFree(vm) => after == before && r == if vm in before then AlreadyExists else Ok
    case FinishCreate(vm) => after == before[vm := Instance(Created, PreBoot, true)] && r == Ok
    case FinishRestore(vm) => after == before[vm := Instance(Running, Live, true)] && r == Ok
    case BeginRestore(vm) => after == before - {vm} && r == Ok
    case Delete(vm) => after == before - {vm} && r == if vm in before then Ok else NotFound
    case Start(vm, sdk) =>
      && r == (if vm !in before then NotFound else if before[vm].client == NoClient then NoClientLeft
               else if before[vm].client == Live then AlreadyStarted else if sdk then Ok else SdkError)
      && after == if vm !in before || before[vm].client != PreBoot then before
                  else if sdk then before[vm := before[vm].(client := Live, status := Running)]
                  else before[vm := before[vm].(client := NoClient)]
    case Stop(vm) =>
      && r == (if vm in before then Ok else NotFound)
      && after == if vm in before then before[vm := before[vm].(status := Shutdown)] else before
    case ForceStop(vm) =>
      && r == (if vm in before then Ok else NotFound)
      && after == if vm in before then before[vm := before[vm].(status := Shutdown, process := false)] else before
    case Pause(vm, sdk) =>
      && r == (if vm !in before then NotFound else if before[vm].client != Live then NotRunning
               else if sdk || before[vm].status == Paused then Ok else SdkError)
      && (if r == Ok then after == before[vm := before[vm].(status := Paused)] else after == before)
    case Resume(vm, sdk) =>
      && r == (if vm !in before then NotFound else if before[vm].client != Live then NotRunning
               else if sdk then Ok else SdkError)
      && (if r == Ok then after == before[vm := before[vm].(status := Running)] else after == before)
    case Describe(vm, answer) =>
      && r == (if vm in before then Ok else NotFound)
      && if vm in before && before[vm].status != Shutdown && before[vm].client == Live && answer.Some? then
           vm in after && Matches(after[vm].status, answer.value, Created)
           && after == before[vm := before[vm].(status := after[vm].status)]
         else after == before
    case Snapshot(vm, pauseOk, dirOk, sdk) =>
      var pauses := vm in before && before[vm].client == Live && (pauseOk || before[vm].status == Paused);
      && r == (if vm !in before then NotFound else if before[vm].client != Live then NotRunning
               else if !pauses then SdkError else if !dirOk then IoError else if sdk then Ok else SdkError)
      && after == if pauses then before[vm := before[vm].(status := Paused)] else before
    case Recover(vm, attached, answer) =>
      && r == Ok && vm in after
      && after == before[vm := Instance(after[vm].status, if attached then Live else NoClient, false)]
      && if attached && answer.Some? then Matches(after[vm].status, answer.value, Unknown)
         else after[vm].status == Unknown
  }

  /** Until the VM is put in place again, a lost client stays lost and no operation that needs it succeeds. */
  lemma LostStays(before: Vms, op: Op, after: Vms, r: Outcome)
    requires Did(before, op, after, r) && !Replaces(op) && Lost(before, op.vm)
    ensures Lost(after, op.vm) || op.vm !in after
    ensures op.Start? || op.Pause? || op.Resume? || op.Snapshot? ==> r != Ok
  {
  }

  ghost predicate IsRun(states: seq<Vms>, ops: seq<Op>, rs: seq<Outcome>) {
    && |states| == |ops| + 1 && |rs| == |ops|
    && forall i :: 0 <= i < |ops| ==> Did(states[i], ops[i], states[i + 1], rs[i])
  }

  /** The operation, as it came out, is a reason for the VM to be given this status. */
  predicate Explains(op: Op, r: Outcome, status: Status) {
    match status
    case Created => op.FinishCreate? || (op.Describe? && op.answer == Some(NotStarted))
    case Running =>
      r == Ok && ((op.Start? && op.sdk) || (op.Resume? && op.sdk) || op.FinishRestore? || Said(op, IsRunning))
    case Paused =>
      (op.Pause? && op.sdk && r == Ok) || (op.Snapshot? && op.pauseOk && r != NotRunning) || Said(op, IsPaused)
    case Shutdown => (op.Stop? || op.ForceStop?) && r == Ok
    case Unknown => op.Recover?
  }

  /** The VM itself said so. */
  predicate Said(op: Op, answer: Reported) {
    (op.Describe? && op.answer == Some(answer)) || (op.Recover? && op.attached && op.answer == Some(answer))
  }

  predicate HasStatus(vms: Vms, vm: string, status: Status) {
    vm in vms && vms[vm].status == status
  }

  /** The k-th operation gave the VM its status, which it has kept since. */
  ghost predicate GivenAt(states: seq<Vms>, ops: seq<Op>, rs: seq<Outcome>, n: nat, vm: string, status: Status, k: nat)
    requires IsRun(states, ops, rs) && n <= |ops|
  {
    && k < n && ops[k].vm == vm && Explains(ops[k], rs[k], status)
    && forall j :: k < j <= n ==> HasStatus(states[j], vm, status)
  }

  lemma StatusChange(before: Vms, op: Op, after: Vms, r: Outcome, vm: string)
    requires Did(before, op, after, r) && AllConsistent(before) && vm in after
             && !HasStatus(before, vm, after[vm].status)
    ensures op.vm == vm && Explains(op, r, after[vm].status)
  {
  }

  lemma ConsistentStep(before: Vms, op: Op, after: Vms, r: Outcome)
    requires Did(before, op, after, r) && AllConsistent(before)
    ensures AllConsistent(after)
  {
  }

  /**
   * In every run from the empty manager, each VM's status was given by one operation on it
   * that came out accordingly, and nothing changed it since.
   */
  lemma {:induction false} StatusExplained(states: seq<Vms>, ops: seq<Op>, rs: seq<Outcome>, n: nat, vm: string)
    requires IsRun(states, ops, rs) && states[0] == map[] && n <= |ops|
    ensures AllConsistent(states[n])
    ensures vm in states[n] ==> exists k: nat :: GivenAt(states, ops, rs, n, vm, states[n][vm].status, k)
    decreases n
  {
    if n > 0 {
      StatusExplained(states, ops, rs, n - 1, vm);
      assert Did(states[n - 1], ops[n - 1], states[n], rs[n - 1]);
      ConsistentStep(states[n - 1], ops[n - 1], states[n], rs[n - 1]);
      if vm in states[n] {
        var status := states[n][vm].status;
        if HasStatus(states[n - 1], vm, status) {
          var k: nat :| GivenAt(states, ops, rs, n - 1, vm, status, k);
          assert GivenAt(states, ops, rs, n, vm, status, k);
        } else {
          StatusChange(states[n - 1], ops[n - 1], states[n], rs[n - 1], vm);
          assert GivenAt(states, ops, rs, n, vm, status, n - 1);
        }
      }
    }
  }

  /** An operation that fails leaves the VM's status alone, save a snapshot that got as far as pausing. */
  lemma FailureKeepsStatus(before: Vms, op: Op, after: Vms, r: Outcome)
    requires Did(before, op, after, r) && r != Ok && !(op.Snapshot? && op.pauseOk) && op.vm in before
    ensures HasStatus(after, op.vm, before[op.vm].status)
  {
  }

  lemma RunGrows(states: seq<Vms>, ops: seq<Op>, rs: seq<Outcome>, i: nat, next: Vms, r: Outcome)
    requires i < |ops| && IsRun(states, ops[..i], rs) && Did(states[i], ops[i], next, r)
    ensures IsRun(states + [next], ops[..i + 1], rs + [r])
  {
  }

  /** Everything but one VM is as before. */
  ghost predicate Untouched(before: Vms, after: Vms, vm: string) {
    forall n :: n != vm ==> (n in after <==> n in before) && (n in after ==> after[n] == before[n])
  }

  /** A VM whose client was lost, as after a failed start, is never again said to be running or paused. */
  ghost predicate Lost(vms: Vms, vm: string) {
    vm in vms && vms[vm].client == NoClient && vms[vm].status !in {Running, Paused}
  }

  ghost predicate Unreplaced(ops: seq<Op>, vm: string) {
    forall i :: 0 <= i < |ops| && ops[i].vm == vm ==> !Replaces(ops[i])
  }
}
