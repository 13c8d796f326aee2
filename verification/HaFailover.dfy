/**
 * Failing a VM over: the ordered row updates, their revert, the GPU move and
 * the clean-up of stale copies on a recovered host (qarax/src/ha_monitor.rs).
 */
module HaFailover {
  import opened Common
  import opened HostGpus

  datatype Status = Unknown | Pending | Created | Running | Paused | Shutdown | Migrating | Committing

  datatype Json = HostId(id: Host) | Other(text: string)

  /** The VM's JSON configuration; None stands for a value that is not an object. */
  type Config = Option<map<string, Json>>

  const MARKER_KEY := "failed_over_from"

  function FailedOverFrom(c: Config): Option<Host> {
    if c.Some? && MARKER_KEY in c.value && c.value[MARKER_KEY].HostId? then Some(c.value[MARKER_KEY].id) else None
  }

  function SetFailedOverFrom(c: Config, h: Option<Host>): Config {
    var fields := if c.Some? then c.value else map[];
    Some(if h.Some? then fields[MARKER_KEY := HostId(h.value)] else fields - {MARKER_KEY})
  }

  /** The marker reads back as written and no other setting changes. */
  lemma MarkerRoundTrip(c: Config, h: Option<Host>, key: string)
    ensures FailedOverFrom(SetFailedOverFrom(c, h)) == h
    ensures key != MARKER_KEY && c.Some? ==>
              (key in SetFailedOverFrom(c, h).value <==> key in c.value)
              && (key in c.value ==> SetFailedOverFrom(c, h).value[key] == c.value[key])
  {
  }

  /** Every setting but the marker is there with its value iff it was before. */
  ghost predicate SameSettings(before: Config, after: Config) {
    forall key :: key != "failed_over_from" ==> Setting(before, key) == Setting(after, key)
  }

  function Setting(c: Config, key: string): Option<Json> {
    if c.Some? && key in c.value then Some(c.value[key]) else None
  }

  /** The host a configuration names as holding a stale copy. */
  function MarkedHost(c: Config): Option<Host> {
    match Setting(c, "failed_over_from")
    case Some(HostId(h)) => Some(h)
    case _ => None
  }

  lemma MarkerMeans(c: Config, h: Option<Host>)
    ensures FailedOverFrom(c) == MarkedHost(c) && MarkedHost(SetFailedOverFrom(c, h)) == h
    ensures SameSettings(c, SetFailedOverFrom(c, h))
  {
  }

  datatype Row = Row(host: Host, status: Status, config: Config)

  /** A stale copy is never awaited on the host the VM is recorded on. */
  predicate MarkerOk(r: Row) {
    FailedOverFrom(r.config) != Some(r.host)
  }

  /** Which of three row updates reach the database. */
  datatype Writes = Writes(config: bool, host: bool, status: bool)

  predicate AllWritten(w: Writes) {
    w.config && w.host && w.status
  }

  datatype Plan = NoPlan | Plan(target: Host, gpus: Option<Request>)

  /** Everything outside the monitor's control during one failover. */
  datatype Script = Script(plan: Plan, forward: Writes, locked: set<GpuId>, started: bool, startStatus: Status,
                           back: Writes, lockedBack: set<GpuId>)

  function Reverted(now: Row, was: Row, dead: Host, w: Writes): Row {
    Row(if w.host then dead else now.host, if w.status then was.status else now.status,
        if w.config then was.config else now.config)
  }

  /** The row after execute_failover, given whether the GPU move (if any) succeeded. */
  function FinalRow(r: Row, dead: Host, s: Script, gpusMoved: bool): Row {
    if s.plan.NoPlan? || !s.forward.config then r
    else
      var tagged := r.(config := SetFailedOverFrom(r.config, Some(dead)));
      if !s.forward.host then tagged
      else
        var moved := tagged.(host := s.plan.target);
        if !s.forward.status then moved
        else if !gpusMoved then Reverted(moved.(status := Created), r, dead, s.back)
        else
          var launched := moved.(status := s.startStatus);
          if s.started then launched else Reverted(launched, r, dead, s.back)
  }

  /** A failover moves the row, and an unsuccessful one whose host is written back does not. */
  predicate EndsOnTarget(s: Script, gpusMoved: bool) {
    && s.plan.Plan? && s.forward.config && s.forward.host
    && (!s.forward.status || (gpusMoved && s.started) || !s.back.host)
  }

  /** The source is named, and not written back. */
  predicate EndsMarked(s: Script, gpusMoved: bool) {
    && s.plan.Plan? && s.forward.config
    && (!s.forward.host || !s.forward.status || (gpusMoved && s.started) || !s.back.config)
  }

  /** The row after execute_failover, field by field, from which updates reach the database. */
  lemma FinalFields(r: Row, dead: Host, s: Script, gpusMoved: bool)
    requires r.host == dead
    ensures var r' := FinalRow(r, dead, s, gpusMoved);
            && r'.host == (if EndsOnTarget(s, gpusMoved) then s.plan.target else r.host)
            && MarkedHost(r'.config) == (if EndsMarked(s, gpusMoved) then Some(dead) else MarkedHost(r.config))
            && SameSettings(r.config, r'.config)
    ensures var r' := FinalRow(r, dead, s, gpusMoved);
            var reached := s.plan.Plan? && AllWritten(s.forward);
            r'.status == if !reached then r.status
                         else if gpusMoved && s.started then s.startStatus
                         else if s.back.status then r.status
                         else if gpusMoved then s.startStatus else Created
  {
    MarkerMeans(r.config, Some(dead));
  }

  /** The failover takes effect: planned, written, GPUs moved and VM started. */
  predicate Succeeds(s: Script, gpusMoved: bool) {
    s.plan.Plan? && AllWritten(s.forward) && gpusMoved && s.started
  }

  /** Two updates that belong together reach the database only in part. */
  predicate Torn(r: Row, s: Script, gpusMoved: bool) {
    && s.plan.Plan? && s.forward.config
    && (!s.forward.host ||
        (s.forward.status && !(gpusMoved && s.started) &&
         ((s.back.host && !s.back.config) ||
          (!s.back.host && s.back.config && FailedOverFrom(r.config) == Some(s.plan.target)))))
  }

  /**
   * The marker differs from the recorded host after a failover exactly when no
   * pair of updates was torn apart; in particular whenever all writes succeed.
   */
  lemma MarkerKeptIff(r: Row, dead: Host, s: Script, gpusMoved: bool)
    requires MarkerOk(r) && r.host == dead && (s.plan.Plan? ==> s.plan.target != dead)
    ensures MarkerOk(FinalRow(r, dead, s, gpusMoved)) <==> !Torn(r, s, gpusMoved)
  {
    MarkerRoundTrip(r.config, Some(dead), "");
  }

  /**
   * With the database up, a failover that does not succeed leaves host, status and
   * configuration exactly as they were.
   */
  lemma FailureRestores(r: Row, dead: Host, s: Script, gpusMoved: bool)
    requires r.host == dead && AllWritten(s.forward) && AllWritten(s.back) && !Succeeds(s, gpusMoved)
    ensures FinalRow(r, dead, s, gpusMoved) == r
  {
  }

  /** A failover that succeeds names its source, and thereby forgets an earlier source that was never cleaned up. */
  lemma SuccessForgetsEarlierSource(r: Row, dead: Host, s: Script, earlier: Host)
    requires Succeeds(s, true) && MarkerOk(r) && r.host == dead
    ensures var r' := FinalRow(r, dead, s, true);
            && r'.host == s.plan.target && FailedOverFrom(r'.config) == Some(dead)
            && (FailedOverFrom(r.config) == Some(earlier) ==> FailedOverFrom(r'.config) != Some(earlier))
  {
    MarkerRoundTrip(r.config, Some(dead), "");
  }

  datatype DeleteOutcome = Deleted | NotFound | Error

  predicate Confirmed(d: DeleteOutcome) {
    d.Deleted? || d.NotFound?
  }

  class Database {
    var vms: map<Vm, Row>
    const gpus: GpuTable

    constructor (vms: map<Vm, Row>, gpus: GpuTable)
      ensures this.vms == vms && this.gpus == gpus
    {
      this.vms, this.gpus := vms, gpus;
    }

    method UpdateConfig(vm: Vm, config: Config, written: bool)
      requires vm in vms
      modifies this`vms
      ensures vms == old(vms)[vm := if written then old(vms)[vm].(config := config) else old(vms)[vm]]
    {
      if written {
        vms := vms[vm := vms[vm].(config := config)];
      }
    }

    method UpdateHost(vm: Vm, host: Host, written: bool)
      requires vm in vms
      modifies this`vms
      ensures vms == old(vms)[vm := if written then old(vms)[vm].(host := host) else old(vms)[vm]]
    {
      if written {
        vms := vms[vm := vms[vm].(host := host)];
      }
    }

    method UpdateStatus(vm: Vm, status: Status, written: bool)
      requires vm in vms
      modifies this`vms
      ensures vms == old(vms)[vm := if written then old(vms)[vm].(status := status) else old(vms)[vm]]
    {
      if written {
        vms := vms[vm := vms[vm].(status := status)];
      }
    }

    /** revert_failover_state: three updates whose failures are ignored. */
    method Revert(vm: Vm, was: Row, dead: Host, w: Writes)
      requires vm in vms
      modifies this`vms
      ensures vms == old(vms)[vm := Reverted(old(vms)[vm], was, dead, w)]
    {
      UpdateHost(vm, dead, w.host);
      UpdateStatus(vm, was.status, w.status);
      UpdateConfig(vm, was.config, w.config);
    }

    /**
     * execute_failover. The last result tells whether the GPU move (if any) went
     * through, which the target's free GPUs alone decide.
     */
    method ExecuteFailover(vm: Vm, dead: Host, s: Script) returns (ok: bool, ghost gpusMoved: bool)
      requires vm in vms && vms[vm].host == dead
      modifies this`vms, gpus
      ensures vms == old(vms)[vm := FinalRow(old(vms)[vm], dead, s, gpusMoved)]
      ensures ok <==> Succeeds(s, gpusMoved)
      ensures SameSettings(old(vms)[vm].config, vms[vm].config)
      ensures ok ==> vms[vm].host == s.plan.target && vms[vm].status == s.startStatus
                     && MarkedHost(vms[vm].config) == Some(dead)
      ensures gpusMoved <==> MoveFits(old(gpus.gpus), vm, s)
      ensures !ok && (s.plan.NoPlan? || s.plan.gpus.None? || !AllWritten(s.forward) || !gpusMoved) ==>
                gpus.gpus == old(gpus.gpus)
      ensures ok && s.plan.gpus.Some? ==>
                Moved(old(gpus.gpus), gpus.gpus, vm, s.plan.target, s.plan.gpus.value, s.locked, true)
      ensures !ok && s.plan.Plan? && s.plan.gpus.Some? && AllWritten(s.forward) && gpusMoved ==>
                exists mid, back :: Moved(old(gpus.gpus), mid, vm, s.plan.target, s.plan.gpus.value, s.locked, true)
                                 && Moved(mid, gpus.gpus, vm, dead, s.plan.gpus.value, s.lockedBack, back)
    {
      FinalFields(vms[vm], dead, s, MoveFits(gpus.gpus, vm, s));
      ok, gpusMoved := Attempt(vm, dead, s);
    }

    /** The row updates, the GPU move and the start, with every early exit. */
    method Attempt(vm: Vm, dead: Host, s: Script) returns (ok: bool, ghost gpusMoved: bool)
      requires vm in vms && vms[vm].host == dead
      modifies this`vms, gpus
      ensures vms == old(vms)[vm := FinalRow(old(vms)[vm], dead, s, gpusMoved)]
      ensures ok <==> Succeeds(s, gpusMoved)
      ensures gpusMoved <==> MoveFits(old(gpus.gpus), vm, s)
      ensures !ok && (s.plan.NoPlan? || s.plan.gpus.None? || !AllWritten(s.forward) || !gpusMoved) ==>
                gpus.gpus == old(gpus.gpus)
      ensures ok && s.plan.gpus.Some? ==>
                Moved(old(gpus.gpus), gpus.gpus, vm, s.plan.target, s.plan.gpus.value, s.locked, true)
      ensures !ok && s.plan.Plan? && s.plan.gpus.Some? && AllWritten(s.forward) && gpusMoved ==>
                exists mid, back :: Moved(old(gpus.gpus), mid, vm, s.plan.target, s.plan.gpus.value, s.locked, true)
                                 && Moved(mid, gpus.gpus, vm, dead, s.plan.gpus.value, s.lockedBack, back)
    {
      var was := vms[vm];
      gpusMoved := MoveFits(gpus.gpus, vm, s);
      if s.plan.NoPlan? {
        return false, gpusMoved;
      }
      UpdateConfig(vm, SetFailedOverFrom(was.config, Some(dead)), s.forward.config);
      if !s.forward.config {
        return false, gpusMoved;
      }
      UpdateHost(vm, s.plan.target, s.forward.host);
      if !s.forward.host {
        return false, gpusMoved;
      }
      UpdateStatus(vm, Created, s.forward.status);
      if !s.forward.status {
        return false, gpusMoved;
      }
      if s.plan.gpus.Some? {
        var moved := gpus.Reallocate(vm, s.plan.target, s.plan.gpus.value, s.locked);
        if !moved {
          Revert(vm, was, dead, s.back);
          return false, gpusMoved;
        }
      }
      ok := Launch(vm, was, dead, s);
    }

    /** Starts the VM on its new host; a refusal takes the row and the GPUs back. */
    method Launch(vm: Vm, was: Row, dead: Host, s: Script) returns (ok: bool)
      requires vm in vms && s.plan.Plan?
      modifies this`vms, gpus
      ensures ok == s.started
      ensures var launched := old(vms)[vm].(status := s.startStatus);
              vms == old(vms)[vm := if ok then launched else Reverted(launched, was, dead, s.back)]
      ensures ok || s.plan.gpus.None? ==> gpus.gpus == old(gpus.gpus)
      ensures !ok && s.plan.gpus.Some? ==>
                exists back :: Moved(old(gpus.gpus), gpus.gpus, vm, dead, s.plan.gpus.value, s.lockedBack, back)
    {
      UpdateStatus(vm, s.startStatus, true);
      ok := s.started;
      if !ok {
        Revert(vm, was, dead, s.back);
        if s.plan.gpus.Some? {
          var _ := gpus.Reallocate(vm, dead, s.plan.gpus.value, s.lockedBack);
        }
      }
    }

    /** cleanup_stale_copies on a host that answers again: `outcome` is what its delete call reports. */
    method CleanupStale(host: Host, outcome: Vm -> DeleteOutcome, written: Vm -> bool)
      modifies this`vms
      ensures vms == map v | v in old(vms) :: Cleaned(old(vms)[v], host, outcome(v), written(v))
      ensures forall v :: v in vms ==> MarkerCleared(old(vms)[v], vms[v], host, outcome(v), written(v))
    {
      CleanedMeans(vms, host, outcome, written);
      var listed := set v | v in vms && FailedOverFrom(vms[v].config) == Some(host);
      var todo := listed;
      while todo != {}
        invariant todo <= listed && listed <= vms.Keys
        invariant vms.Keys == old(vms).Keys
        invariant forall v :: v in vms ==>
                    vms[v] == if v in todo then old(vms)[v] else Cleaned(old(vms)[v], host, outcome(v), written(v))
        decreases todo
      {
        var v :| v in todo;
        if Confirmed(outcome(v)) {
          UpdateConfig(v, SetFailedOverFrom(vms[v].config, None), written(v));
        }
        todo := todo - {v};
      }
    }

    ghost function Snapshot(): World
      reads this, gpus
    {
      World(vms, gpus.gpus)
    }

    /** One failover of a VM still recorded on the dead host, or one clean-up. */
    method Perform(step: Step)
      modifies this`vms, gpus
      ensures Follows(old(Snapshot()), step, Snapshot())
    {
      match step {
        case Failover(vm, dead, script) =>
          if vm in vms && vms[vm].host == dead {
            var _, moved := ExecuteFailover(vm, dead, script);
          }
        case Cleanup(host, outcome) =>
          CleanupStale(host, outcome, _ => true);
      }
    }

    /**
     * Any sequence of failovers and clean-ups with a working database: at every
     * step boundary no VM is awaited as a stale copy on its own host, and a
     * marker disappears only behind a confirmed delete on that host or a newer failover.
     */
    method RunSteps(steps: seq<Step>) returns (ghost boundaries: seq<World>)
      requires AllMarkersOk(vms) && forall s :: s in steps ==> Sound(s)
      modifies this`vms, gpus
      ensures IsHistory(boundaries, steps) && boundaries[0] == old(Snapshot()) && boundaries[|steps|] == Snapshot()
      ensures forall b :: b in boundaries ==> AllMarkersOk(b.vms)
      ensures forall i :: 0 <= i < |steps| ==> MarkersAccounted(boundaries[i].vms, steps[i], boundaries[i + 1].vms)
    {
      boundaries := [Snapshot()];
      for i := 0 to |steps|
        invariant IsHistory(boundaries, steps[..i]) && boundaries[0] == old(Snapshot()) && boundaries[i] == Snapshot()
        invariant forall b :: b in boundaries ==> AllMarkersOk(b.vms)
        invariant forall j :: 0 <= j < i ==> MarkersAccounted(boundaries[j].vms, steps[j], boundaries[j + 1].vms)
      {
        ghost var before := Snapshot();
        assert steps[i] in steps && before in boundaries;
        Perform(steps[i]);
        StepAccounted(before, steps[i], Snapshot());
        HistoryGrows(boundaries, steps, i, Snapshot());
        boundaries := boundaries + [Snapshot()];
      }
      assert steps[..|steps|] == steps;
    }
  }

  /** The rows and the GPU inventory between two steps. */
  datatype World = World(vms: map<Vm, Row>, gpus: Inventory)

  /** What one step does to the rows, by the specification of the failover and of the clean-up. */
  ghost predicate Follows(before: World, s: Step, after: World) {
    match s
    case Failover(vm, dead, script) =>
      if Attempted(before, s)
      then after.vms == before.vms[vm := FinalRow(before.vms[vm], dead, script, MoveFits(before.gpus, vm, script))]
      else after.vms == before.vms
    case Cleanup(host, outcome) =>
      after.vms == map v | v in before.vms :: Cleaned(before.vms[v], host, outcome(v), true)
  }

  /** The VM is still recorded on the host it is failed over from. */
  predicate Attempted(before: World, s: Step) {
    s.Failover? && s.vm in before.vms && before.vms[s.vm].host == s.dead
  }

  /** The step moves its VM to the target. */
  ghost predicate Moves(before: World, s: Step) {
    Attempted(before, s) && Succeeds(s.script, MoveFits(before.gpus, s.vm, s.script))
  }

  ghost predicate IsHistory(boundaries: seq<World>, steps: seq<Step>) {
    |boundaries| == |steps| + 1 && forall i :: 0 <= i < |steps| ==> Follows(boundaries[i], steps[i], boundaries[i + 1])
  }

  lemma HistoryGrows(boundaries: seq<World>, steps: seq<Step>, i: nat, next: World)
    requires i < |steps| && IsHistory(boundaries, steps[..i]) && Follows(boundaries[i], steps[i], next)
    ensures IsHistory(boundaries + [next], steps[..i + 1])
  {
  }

  lemma StepAccounted(before: World, s: Step, after: World)
    requires AllMarkersOk(before.vms) && Sound(s) && Follows(before, s, after)
    ensures AllMarkersOk(after.vms) && MarkersAccounted(before.vms, s, after.vms)
  {
    match s {
      case Failover(vm, dead, script) =>
        if Attempted(before, s) {
          FailoverAccounted(before.vms, s, MoveFits(before.gpus, vm, script));
        }
      case Cleanup(host, outcome) =>
        CleanupAccounted(before.vms, host, outcome);
    }
  }

  /**
   * A clean-up touches only the marker, and only a marker that names the host: a delete that
   * worked or found nothing clears it, an error leaves the row as it was.
   */
  ghost predicate MarkerCleared(r: Row, r': Row, host: Host, d: DeleteOutcome, written: bool) {
    && r'.host == r.host && r'.status == r.status && SameSettings(r.config, r'.config)
    && match d
       case Error => r' == r
       case Deleted => MarkedHost(r'.config) ==
                       (if MarkedHost(r.config) == Some(host) && written then None else MarkedHost(r.config))
       case NotFound => MarkedHost(r'.config) ==
                        (if MarkedHost(r.config) == Some(host) && written then None else MarkedHost(r.config))
  }

  lemma CleanedMeans(vms: map<Vm, Row>, host: Host, outcome: Vm -> DeleteOutcome, written: Vm -> bool)
    ensures forall v :: v in vms ==>
              MarkerCleared(vms[v], Cleaned(vms[v], host, outcome(v), written(v)), host, outcome(v), written(v))
  {
    forall v | v in vms
      ensures MarkerCleared(vms[v], Cleaned(vms[v], host, outcome(v), written(v)), host, outcome(v), written(v))
    {
      MarkerMeans(vms[v].config, None);
    }
  }

  function Cleaned(r: Row, host: Host, d: DeleteOutcome, written: bool): Row {
    if FailedOverFrom(r.config) == Some(host) && Confirmed(d) && written
    then r.(config := SetFailedOverFrom(r.config, None)) else r
  }

  datatype Step = Failover(vm: Vm, dead: Host, script: Script) | Cleanup(host: Host, outcome: Vm -> DeleteOutcome)

  /** The database accepts every write and the planner never proposes the dead host. */
  predicate Sound(s: Step) {
    s.Failover? ==>
      AllWritten(s.script.forward) && AllWritten(s.script.back)
        && (s.script.plan.Plan? ==> s.script.plan.target != s.dead)
  }

  predicate AllMarkersOk(vms: map<Vm, Row>) {
    forall v :: v in vms ==> MarkerOk(vms[v])
  }

  /** How a step may change markers. */
  ghost predicate MarkersAccounted(before: map<Vm, Row>, s: Step, after: map<Vm, Row>) {
    && before.Keys == after.Keys
    && forall v, h ::
        v in before && FailedOverFrom(before[v].config) == Some(h) && FailedOverFrom(after[v].config) != Some(h)
        ==> if s.Cleanup? then s.host == h && Confirmed(s.outcome(v)) && FailedOverFrom(after[v].config) == None
            else s.vm == v && FailedOverFrom(after[v].config) == Some(s.dead) && after[v].host != s.dead
  }

  lemma FailoverAccounted(before: map<Vm, Row>, s: Step, gpusMoved: bool)
    requires AllMarkersOk(before) && s.Failover? && Sound(s) && s.vm in before && before[s.vm].host == s.dead
    ensures var after := before[s.vm := FinalRow(before[s.vm], s.dead, s.script, gpusMoved)];
            AllMarkersOk(after) && MarkersAccounted(before, s, after)
  {
    MarkerKeptIff(before[s.vm], s.dead, s.script, gpusMoved);
    MarkerRoundTrip(before[s.vm].config, Some(s.dead), "");
  }

  lemma CleanupAccounted(before: map<Vm, Row>, host: Host, outcome: Vm -> DeleteOutcome)
    requires AllMarkersOk(before)
    ensures var after := map v | v in before :: Cleaned(before[v], host, outcome(v), true);
            AllMarkersOk(after) && MarkersAccounted(before, Cleanup(host, outcome), after)
  {
    forall v | v in before ensures FailedOverFrom(SetFailedOverFrom(before[v].config, None)) == None {
      MarkerRoundTrip(before[v].config, None, "");
    }
  }

  ghost predicate MoveFits(t: Inventory, vm: Vm, s: Script) {
    s.plan.Plan? && s.plan.gpus.Some? ==>
      |Available(Release(t, vm), s.plan.target, s.plan.gpus.value, s.locked)| >= s.plan.gpus.value.count
  }

  /* ---- where the copies are ---- */

  /** The hosts on which a VM may still have a process. */
  type Copies = map<Vm, set<Host>>

  /** A failover that succeeds starts a copy on its target; a confirmed delete removes one. */
  ghost function CopiesAfter(before: World, s: Step, copies: Copies): Copies
    requires before.vms.Keys == copies.Keys
  {
    match s
    case Failover(vm, dead, script) =>
      if Moves(before, s) then copies[vm := copies[vm] + {script.plan.target}] else copies
    case Cleanup(host, outcome) =>
      map v | v in copies ::
        if FailedOverFrom(before.vms[v].config) == Some(host) && Confirmed(outcome(v)) then copies[v] - {host}
            else copies[v]
  }

  /** A clean-up whose delete of the VM fails leaves its copies as they were; any other removes the marked one. */
  lemma CopiesCleaned(before: World, host: Host, outcome: Vm -> DeleteOutcome, copies: Copies, v: Vm)
    requires before.vms.Keys == copies.Keys && v in copies
    ensures var after := CopiesAfter(before, Cleanup(host, outcome), copies);
            && v in after
            && after[v] == if outcome(v) == Error || MarkedHost(before.vms[v].config) != Some(host) then copies[v]
                           else copies[v] - {host}
  {
    MarkerMeans(before.vms[v].config, None);
  }

  /** Every copy is on the host the row records or on the one its marker names. */
  predicate Known(r: Row, copies: set<Host>) {
    forall h :: h in copies ==> h == r.host || FailedOverFrom(r.config) == Some(h)
  }

  predicate AllKnown(vms: map<Vm, Row>, copies: Copies) {
    vms.Keys == copies.Keys && forall v :: v in vms ==> Known(vms[v], copies[v])
  }

  /** The step moves a VM whose marker still names a copy on a third host. */
  ghost predicate Burdened(before: World, s: Step, copies: Copies) {
    && Moves(before, s) && s.vm in copies
    && exists h :: h in copies[s.vm] && FailedOverFrom(before.vms[s.vm].config) == Some(h) && h != s.script.plan.target
  }

  lemma RowKnownIff(r: Row, r': Row, copies: set<Host>)
    requires Known(r, copies) && MarkerOk(r) && FailedOverFrom(r'.config) == Some(r.host)
    ensures Known(r', copies + {r'.host}) <==>
              forall h :: h in copies && FailedOverFrom(r.config) == Some(h) ==> h == r'.host
  {
  }

  lemma FailoverKnownIff(before: World, s: Step, copies: Copies)
    requires AllKnown(before.vms, copies) && AllMarkersOk(before.vms) && Sound(s) && Attempted(before, s)
    ensures var after := before.vms[s.vm := FinalRow(before.vms[s.vm], s.dead, s.script,
                                                     MoveFits(before.gpus, s.vm, s.script))];
            AllKnown(after, CopiesAfter(before, s, copies)) <==> !Burdened(before, s, copies)
  {
    var r, moved := before.vms[s.vm], MoveFits(before.gpus, s.vm, s.script);
    var r' := FinalRow(r, s.dead, s.script, moved);
    assert Known(r, copies[s.vm]) && MarkerOk(r);
    if Succeeds(s.script, moved) {
      SuccessForgetsEarlierSource(r, s.dead, s.script, s.dead);
      RowKnownIff(r, r', copies[s.vm]);
      OneRowKnown(before.vms, copies, s.vm, r', copies[s.vm] + {r'.host});
    } else {
      FailureRestores(r, s.dead, s.script, moved);
      assert before.vms[s.vm := r'] == before.vms;
    }
  }

  lemma OneRowKnown(vms: map<Vm, Row>, copies: Copies, vm: Vm, r: Row, c: set<Host>)
    requires AllKnown(vms, copies) && vm in vms
    ensures AllKnown(vms[vm := r], copies[vm := c]) <==> Known(r, c)
  {
    assert vms[vm := r].Keys == vms.Keys && copies[vm := c].Keys == copies.Keys;
  }

  lemma CleanupKnown(before: World, host: Host, outcome: Vm -> DeleteOutcome, copies: Copies)
    requires AllKnown(before.vms, copies)
    ensures var after := map v | v in before.vms :: Cleaned(before.vms[v], host, outcome(v), true);
            AllKnown(after, CopiesAfter(before, Cleanup(host, outcome), copies))
  {
    forall v | v in before.vms ensures FailedOverFrom(SetFailedOverFrom(before.vms[v].config, None)) == None {
      MarkerRoundTrip(before.vms[v].config, None, "");
    }
  }

  /**
   * A step from a state in which every copy is known leads to another such state
   * exactly when it does not move a VM that still has a copy on a third host.
   */
  lemma CopiesKnownIff(before: World, s: Step, after: World, copies: Copies)
    requires AllKnown(before.vms, copies) && AllMarkersOk(before.vms) && Sound(s) && Follows(before, s, after)
    ensures AllKnown(after.vms, CopiesAfter(before, s, copies)) <==> !Burdened(before, s, copies)
  {
    match s {
      case Failover(vm, dead, script) =>
        if Attempted(before, s) {
          FailoverKnownIff(before, s, copies);
        }
      case Cleanup(host, outcome) =>
        CleanupKnown(before, host, outcome, copies);
    }
  }

  ghost predicate Tracks(boundaries: seq<World>, steps: seq<Step>, copies: seq<Copies>) {
    && IsHistory(boundaries, steps) && |copies| == |boundaries| && AllKnown(boundaries[0].vms, copies[0])
    && forall i :: 0 <= i < |steps| ==>
         boundaries[i].vms.Keys == copies[i].Keys && copies[i + 1] == CopiesAfter(boundaries[i], steps[i], copies[i])
  }

  /**
   * Over any run with a working database: as long as no VM is moved while a copy of
   * it waits on a third host, every copy stays known, so a recovered host's clean-up
   * finds it; the first such move leaves a copy nobody will look for.
   */
  lemma {:induction false} RunKnowsCopies(boundaries: seq<World>, steps: seq<Step>, copies: seq<Copies>, n: nat)
    requires Tracks(boundaries, steps, copies) && n <= |steps|
    requires (forall b :: b in boundaries ==> AllMarkersOk(b.vms)) && forall s :: s in steps ==> Sound(s)
    requires forall i :: 0 <= i < n ==> !Burdened(boundaries[i], steps[i], copies[i])
    ensures AllKnown(boundaries[n].vms, copies[n])
    ensures n < |steps| ==>
              (AllKnown(boundaries[n + 1].vms, copies[n + 1]) <==> !Burdened(boundaries[n], steps[n], copies[n]))
  {
    if n > 0 {
      RunKnowsCopies(boundaries, steps, copies, n - 1);
    }
    if n < |steps| {
      assert boundaries[n] in boundaries && steps[n] in steps;
      CopiesKnownIff(boundaries[n], steps[n], boundaries[n + 1], copies[n]);
    }
  }

  /** A working failover from host `dead` to `target` of a VM without GPUs. */
  function Working(vm: Vm, dead: Host, target: Host): Step {
    var all := Writes(true, true, true);
    Failover(vm, dead, Script(Plan(target, None), all, {}, true, Running, all, {}))
  }

  function OneVm(host: Host, config: Config): World {
    World(map[0 := Row(host, Running, config)], map[])
  }

  function Marked(h: Host): Config {
    Some(map[MARKER_KEY := HostId(h)])
  }

  lemma WorkingMoves(dead: Host, target: Host, config: Config, copies: set<Host>)
    requires dead != target && (config == None || exists h :: config == Marked(h))
    ensures var before, step := OneVm(dead, config), Working(0, dead, target);
            && Sound(step) && Follows(before, step, OneVm(target, Marked(dead)))
            && CopiesAfter(before, step, map[0 := copies]) == map[0 := copies + {target}]
  {
    assert SetFailedOverFrom(config, Some(dead)).value == map[MARKER_KEY := HostId(dead)];
  }

  /**
   * Hosts 1 and 2 die one after the other before either returns: the VM goes from 1 to 2
   * to 3, and nobody will look for its copy on host 1.
   */
  lemma SecondFailoverForgetsCopy()
    ensures var boundaries := [OneVm(1, None), OneVm(2, Marked(1)), OneVm(3, Marked(2))];
            var copies := [map[0 := {1}], map[0 := {1, 2}], map[0 := {1, 2, 3}]];
            && Tracks(boundaries, [Working(0, 1, 2), Working(0, 2, 3)], copies)
            && AllKnown(boundaries[1].vms, copies[1]) && !AllKnown(boundaries[2].vms, copies[2])
  {
    WorkingMoves(1, 2, None, {1});
    WorkingMoves(2, 3, Marked(1), {1, 2});
    assert {1} + {2} == {1, 2} && {1, 2} + {3} == {1, 2, 3};
    assert !Known(OneVm(3, Marked(2)).vms[0], {1, 2, 3});
  }

  /**
   * If the configuration is written but the host update is not, the VM's only copy
   * is the one the next clean-up of that host deletes, and the marker is forgotten.
   */
  lemma TornWriteLosesLastCopy(r: Row, dead: Host, s: Script, moved: bool, vm: Vm, gpus: Inventory)
    requires r.host == dead && s.plan.Plan? && s.forward.config && !s.forward.host
    ensures var r' := FinalRow(r, dead, s, moved);
            var cleanup := Cleanup(dead, (v: Vm) => Deleted);
            var before := World(map[vm := r'], gpus);
            var after := World(map[vm := Cleaned(r', dead, Deleted, true)], gpus);
            && Follows(before, cleanup, after) && after.vms[vm].host == dead
            && FailedOverFrom(after.vms[vm].config) == None
            && CopiesAfter(before, cleanup, map[vm := {dead}])[vm] == {}
  {
    MarkerRoundTrip(r.config, Some(dead), "");
    MarkerRoundTrip(SetFailedOverFrom(r.config, Some(dead)), None, "");
  }
}
