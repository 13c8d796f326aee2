/**
 * Every interleaving of exec threads and the reaper over the exit registry.
 * One action is one critical section, or one event in the kernel. The reaper takes
 * two: waitpid frees the pid, and only later is the exit recorded
 * (qarax-init/src/main.rs, serve_exec_connection and the waitpid loop).
 */
module ExitProtocol {
  import opened Common
  import opened ExitRegistry

  /** Where an exec thread stands; Waiting means it has registered for its child's exit. */
  datatype Phase = Begun | Spawned(pid: Pid) | Waiting(pid: Pid) | Cancelled

  /** An exit waitpid has returned, with the exec thread whose child it was, if any. */
  datatype Exit = Exit(pid: Pid, code: int, owner: Option<Thread>)

  /**
   * `children` and `strays` are the processes waitpid has not returned yet; the
   * former belong to an exec thread. `collected` is the exit the one reaper has in
   * hand. `exits`, `inbox` and `lost` are history: the recorded exit of a thread's
   * child, what its channel carried, and the threads whose record was pruned before
   * they registered.
   */
  datatype Sys = Sys(reg: Registry, phase: map<Thread, Phase>, children: map<Pid, Thread>, strays: set<Pid>,
                     collected: Option<Exit>, exits: map<Thread, int>, inbox: map<Thread, seq<int>>,
                     lost: set<Thread>)

  datatype Action =
    | Begin(t: Thread, now: int, kept: map<Pid, Record>)
    | Cancel(t: Thread, now: int, kept: map<Pid, Record>)
    | Spawn(t: Thread, pid: Pid)
    | Stray(pid: Pid)
    | Register(t: Thread, now: int, kept: map<Pid, Record>)
    | Collect(pid: Pid, code: int)
    | RecordExit(now: int, at: int, kept: map<Pid, Record>)

  const INITIAL := Sys(Registry(map[], map[], 0), map[], map[], {}, None, map[], map[], {})

  predicate InPhase(s: Sys, t: Thread, p: Phase) {
    t in s.phase && s.phase[t] == p
  }

  /** The kernel hands out any pid that no unreaped process has. */
  predicate FreePid(s: Sys, pid: Pid) {
    pid !in s.children && pid !in s.strays
  }

  /** The reaper holds an exit of this pid and has not recorded it. */
  predicate Collected(s: Sys, pid: Pid) {
    s.collected.Some? && s.collected.value.pid == pid
  }

  predicate CollectedFrom(s: Sys, pid: Pid, t: Thread) {
    Collected(s, pid) && s.collected.value.owner == Some(t)
  }

  /** Some thread is yet to ask for the pid, or waits for a code that was pruned before it asked. */
  ghost predicate Haunted(s: Sys, pid: Pid) {
    exists t :: InPhase(s, t, Spawned(pid)) || (t in s.lost && InPhase(s, t, Waiting(pid)))
  }

  /** The action hands out no pid that somebody is still to be told about. */
  ghost predicate Careful(s: Sys, a: Action) {
    match a
    case Spawn(t, pid) => !Haunted(s, pid) && !Collected(s, pid) && !Survives(s.reg.completed, pid)
    case Stray(pid) => !Haunted(s, pid)
    case _ => true
  }

  /** No thread is yet to ask for the pid, and one that waits for it is about to be told. */
  ghost predicate Unnamed(s: Sys, pid: Pid) {
    FreePid(s, pid) && (pid in s.reg.waiters ==> Collected(s, pid)) && forall t :: !InPhase(s, t, Spawned(pid))
  }

  ghost predicate Enabled(s: Sys, a: Action) {
    match a
    case Begin(t, now, kept) => t !in s.phase && Pruned(s.reg.completed, kept, now)
    case Cancel(t, now, kept) => InPhase(s, t, Begun) && Pruned(s.reg.completed, kept, now)
    case Spawn(t, pid) => InPhase(s, t, Begun) && FreePid(s, pid)
    case Stray(pid) => FreePid(s, pid)
    case Register(t, now, kept) => t in s.phase && s.phase[t].Spawned? && Pruned(s.reg.completed, kept, now)
    case Collect(pid, code) => s.collected.None? && (pid in s.children || pid in s.strays)
    case RecordExit(now, at, kept) => s.collected.Some? && Pruned(s.reg.completed, kept, now)
  }

  /** Threads whose child's record disappears when pruning leaves `kept`. */
  function Dropped(s: Sys, kept: map<Pid, Record>): set<Thread> {
    set t | t in s.phase && s.phase[t].Spawned? && t in s.exits && s.phase[t].pid in s.reg.completed
            && s.phase[t].pid !in kept
  }

  function Prune(s: Sys, kept: map<Pid, Record>): Sys {
    s.(reg := s.reg.(completed := kept), lost := s.lost + Dropped(s, kept))
  }

  function Send(inbox: map<Thread, seq<int>>, t: Thread, code: int): map<Thread, seq<int>> {
    inbox[t := (if t in inbox then inbox[t] else []) + [code]]
  }

  function DoRegister(s: Sys, t: Thread, pid: Pid): Sys {
    var (reg, sent) := RegisterStep(s.reg, s.reg.completed, pid, t);
    s.(reg := reg, phase := s.phase[t := Waiting(pid)],
       inbox := if sent.Some? then Send(s.inbox, t, sent.value) else s.inbox)
  }

  function DoCollect(s: Sys, pid: Pid, code: int): Sys {
    s.(children := s.children - {pid}, strays := s.strays - {pid},
       collected := Some(Exit(pid, code, if pid in s.children then Some(s.children[pid]) else None)))
  }

  function DoRecord(s: Sys, e: Exit, at: int): Sys {
    var (reg, to) := RecordStep(s.reg, s.reg.completed, e.pid, e.code, at);
    s.(reg := reg, collected := None,
       exits := if e.owner.Some? then s.exits[e.owner.value := e.code] else s.exits,
       inbox := if to.Some? then Send(s.inbox, to.value, e.code) else s.inbox)
  }

  function Step(s: Sys, a: Action): Sys
    requires a.Register? ==> a.t in s.phase && s.phase[a.t].Spawned?
    requires a.RecordExit? ==> s.collected.Some?
  {
    match a
    case Begin(t, now, kept) =>
      var p := Prune(s, kept);
      Began(p, t)
    case Cancel(t, now, kept) =>
      var p := Prune(s, kept);
      Cancelling(p, t)
    case Spawn(t, pid) => s.(phase := s.phase[t := Spawned(pid)], children := s.children[pid := t])
    case Stray(pid) => s.(strays := s.strays + {pid})
    case Register(t, now, kept) => DoRegister(Prune(s, kept), t, s.phase[t].pid)
    case Collect(pid, code) => DoCollect(s, pid, code)
    case RecordExit(now, at, kept) => DoRecord(Prune(s, kept), s.collected.value, at)
  }

  /* ---- the invariant ---- */

  predicate IsPending(p: Phase) {
    p.Begun? || p.Spawned?
  }

  function PendingThreads(s: Sys): set<Thread> {
    set t | t in s.phase && IsPending(s.phase[t])
  }

  /** The exit of the thread's child `p` is yet to be recorded. */
  predicate Owed(s: Sys, p: Pid, t: Thread) {
    (p in s.children && s.children[p] == t) || CollectedFrom(s, p, t)
  }

  /** What the registry owes thread `t`. */
  ghost predicate ThreadOk(s: Sys, t: Thread)
    requires t in s.phase
  {
    t in s.inbox &&
    match s.phase[t]
    case Begun => s.inbox[t] == [] && t !in s.exits && t !in s.lost
    case Cancelled => s.inbox[t] == [] && t !in s.exits && t !in s.lost
    case Spawned(p) =>
      && s.inbox[t] == [] && p !in s.reg.waiters && p !in s.strays
      && (t !in s.exits ==> Owed(s, p, t) && !Survives(s.reg.completed, p) && t !in s.lost)
      && (t in s.exits ==> p !in s.children && !Collected(s, p))
      && (t in s.exits && t !in s.lost ==> p in s.reg.completed && s.reg.completed[p].code == s.exits[t])
      && (t in s.lost ==> p !in s.reg.completed)
    case Waiting(p) =>
      && (t !in s.exits ==> Owed(s, p, t) && t !in s.lost)
      && (t !in s.exits || t in s.lost ==> s.inbox[t] == [] && p in s.reg.waiters && s.reg.waiters[p] == t)
      && (t in s.exits && t !in s.lost ==> s.inbox[t] == [s.exits[t]])
  }

  /** Who may hold what under pid `p`. */
  ghost predicate PidOk(s: Sys, p: Pid) {
    && (p in s.reg.waiters ==>
          var t := s.reg.waiters[p];
          && p !in s.reg.completed && InPhase(s, t, Waiting(p)) && (t !in s.exits || t in s.lost)
          && (p in s.strays ==> Collected(s, p)) && (Collected(s, p) ==> CollectedFrom(s, p, t)))
    && (p in s.children ==>
          var t := s.children[p];
          && !Survives(s.reg.completed, p) && p !in s.strays && !Collected(s, p)
          && OwedOk(s, p, t) && (p in s.reg.waiters ==> s.reg.waiters[p] == t))
    && (Collected(s, p) && s.collected.value.owner.Some? ==> OwedOk(s, p, s.collected.value.owner.value))
  }

  ghost predicate OwedOk(s: Sys, p: Pid, t: Thread) {
    t !in s.exits && (InPhase(s, t, Spawned(p)) || InPhase(s, t, Waiting(p)))
  }

  /** Two threads never sit between spawn and register with the same pid. */
  ghost predicate PairOk(s: Sys, t: Thread, u: Thread) {
    t in s.phase && u in s.phase && s.phase[t].Spawned? && s.phase[t] == s.phase[u] ==> t == u
  }

  ghost predicate Counts(s: Sys) {
    && |s.reg.completed| <= MAX_RECORDS + 1
    && s.reg.pending == |PendingThreads(s)|
    && (forall t :: t in s.exits || t in s.lost ==> t in s.phase)
  }

  ghost predicate Inv(s: Sys) {
    && (forall t :: t in s.phase ==> ThreadOk(s, t))
    && (forall p :: PidOk(s, p))
    && (forall t, u :: PairOk(s, t, u))
    && Counts(s)
  }

  lemma PruneKeeps(s: Sys, kept: map<Pid, Record>, now: int)
    requires Inv(s) && Pruned(s.reg.completed, kept, now)
    ensures Inv(Prune(s, kept)) && |kept| <= MAX_RECORDS
  {
    var s' := Prune(s, kept);
    PrunedBound(s.reg.completed, kept, now);
    assert PendingThreads(s') == PendingThreads(s);
    forall t | t in s'.phase ensures ThreadOk(s', t) { assert ThreadOk(s, t); PruneThread(s, kept, now, t); }
    forall p ensures PidOk(s', p) { assert PidOk(s, p); PrunePid(s, kept, now, p); }
    forall t, u ensures PairOk(s', t, u) { assert PairOk(s, t, u); }
  }

  lemma PruneThread(s: Sys, kept: map<Pid, Record>, now: int, t: Thread)
    requires Pruned(s.reg.completed, kept, now) && t in s.phase && ThreadOk(s, t)
    ensures ThreadOk(Prune(s, kept), t)
  {
    SurvivorsAreKept(kept);
    assert forall p :: p in kept ==> Survives(s.reg.completed, p);
  }

  lemma PrunePid(s: Sys, kept: map<Pid, Record>, now: int, p: Pid)
    requires Pruned(s.reg.completed, kept, now) && PidOk(s, p)
    ensures PidOk(Prune(s, kept), p)
  {
    SurvivorsAreKept(kept);
    assert p in kept ==> Survives(s.reg.completed, p);
  }

  function Cancelling(s: Sys, t: Thread): Sys {
    s.(reg := CancelStep(s.reg, s.reg.completed), phase := s.phase[t := Cancelled])
  }

  function Began(s: Sys, t: Thread): Sys {
    s.(reg := BeginStep(s.reg, s.reg.completed), phase := s.phase[t := Begun], inbox := s.inbox[t := []])
  }

  lemma BeginKeeps(s: Sys, t: Thread)
    requires Inv(s) && t !in s.phase
    ensures Inv(Began(s, t))
  {
    forall u | u in s.phase || u == t ensures ThreadOk(Began(s, t), u) {
      assert u in s.phase ==> ThreadOk(s, u);
      BeginThread(s, t, u);
    }
    forall p ensures PidOk(Began(s, t), p) {
      assert PidOk(s, p);
      BeginPid(s, t, p);
    }
    forall u, v ensures PairOk(Began(s, t), u, v) {
      assert PairOk(s, u, v);
    }
    BeginCounts(s, t);
  }

  lemma BeginCounts(s: Sys, t: Thread)
    requires Counts(s) && t !in s.phase
    ensures Counts(Began(s, t))
  {
    assert PendingThreads(Began(s, t)) == PendingThreads(s) + {t};
  }

  lemma BeginThread(s: Sys, t: Thread, u: Thread)
    requires t !in s.phase && Counts(s)
    requires u == t || (u in s.phase && ThreadOk(s, u))
    ensures ThreadOk(Began(s, t), u)
  {
  }

  lemma BeginPid(s: Sys, t: Thread, p: Pid)
    requires PidOk(s, p) && t !in s.phase
    ensures PidOk(Began(s, t), p)
  {
  }

  lemma CancelKeeps(s: Sys, t: Thread)
    requires Inv(s) && InPhase(s, t, Begun)
    ensures Inv(Cancelling(s, t))
  {
    var s' := Cancelling(s, t);
    assert PendingThreads(s') == PendingThreads(s) - {t} && t in PendingThreads(s);
    forall u | u in s'.phase ensures ThreadOk(s', u) { assert ThreadOk(s, u); CancelThread(s, t, u); }
    forall p ensures PidOk(s', p) { assert PidOk(s, p); CancelPid(s, t, p); }
    forall u, v ensures PairOk(s', u, v) { assert PairOk(s, u, v); }
  }

  lemma CancelThread(s: Sys, t: Thread, u: Thread)
    requires InPhase(s, t, Begun) && ThreadOk(s, t) && u in s.phase && ThreadOk(s, u)
    ensures ThreadOk(Cancelling(s, t), u)
  {
  }

  lemma CancelPid(s: Sys, t: Thread, p: Pid)
    requires InPhase(s, t, Begun) && PidOk(s, p)
    ensures PidOk(Cancelling(s, t), p)
  {
  }

  /** While the invariant holds, a free pid that is not haunted is named at most by the exit in the reaper's hand. */
  lemma FreeIsUnnamed(s: Sys, pid: Pid)
    requires Inv(s) && FreePid(s, pid) && !Haunted(s, pid)
    ensures Unnamed(s, pid)
  {
    assert PidOk(s, pid);
    if pid in s.reg.waiters {
      assert ThreadOk(s, s.reg.waiters[pid]);
    }
  }

  /** Nothing in the protocol refers to the pid, save a record that the next pruning drops. */
  ghost predicate Unclaimed(s: Sys, pid: Pid) {
    Unnamed(s, pid) && !Collected(s, pid) && !Survives(s.reg.completed, pid)
  }

  lemma SpawnKeeps(s: Sys, t: Thread, pid: Pid)
    requires Inv(s) && InPhase(s, t, Begun) && Unclaimed(s, pid)
    ensures Inv(Step(s, Spawn(t, pid)))
  {
    var s' := Step(s, Spawn(t, pid));
    assert PendingThreads(s') == PendingThreads(s);
    forall u | u in s'.phase ensures ThreadOk(s', u) { SpawnThread(s, t, pid, u); }
    forall p ensures PidOk(s', p) { SpawnPid(s, t, pid, p); }
    forall u, v ensures PairOk(s', u, v) {
      assert PairOk(s, u, v) && !InPhase(s, u, Spawned(pid)) && !InPhase(s, v, Spawned(pid));
    }
  }

  lemma SpawnThread(s: Sys, t: Thread, pid: Pid, u: Thread)
    requires Inv(s) && InPhase(s, t, Begun) && Unclaimed(s, pid) && u in s.phase
    ensures ThreadOk(Step(s, Spawn(t, pid)), u)
  {
    assert ThreadOk(s, u);
    assert !InPhase(s, u, Spawned(pid));
  }

  lemma SpawnPid(s: Sys, t: Thread, pid: Pid, p: Pid)
    requires Inv(s) && InPhase(s, t, Begun) && Unclaimed(s, pid)
    ensures PidOk(Step(s, Spawn(t, pid)), p)
  {
    assert PidOk(s, p) && ThreadOk(s, t);
  }

  lemma StrayKeeps(s: Sys, pid: Pid)
    requires Inv(s) && Unnamed(s, pid)
    ensures Inv(Step(s, Stray(pid)))
  {
    var s' := Step(s, Stray(pid));
    assert PendingThreads(s') == PendingThreads(s);
    forall u | u in s'.phase ensures ThreadOk(s', u) { assert ThreadOk(s, u) && !InPhase(s, u, Spawned(pid)); }
    forall p ensures PidOk(s', p) { assert PidOk(s, p); }
    forall u, v ensures PairOk(s', u, v) { assert PairOk(s, u, v); }
  }

  /** Just after pruning: every record could be kept once more. */
  ghost predicate Fresh(s: Sys) {
    |s.reg.completed| <= MAX_RECORDS && forall p :: p in s.reg.completed ==> Survives(s.reg.completed, p)
  }

  lemma PrunedIsFresh(s: Sys)
    requires |s.reg.completed| <= MAX_RECORDS
    ensures Fresh(s)
  {
    forall p | p in s.reg.completed ensures Survives(s.reg.completed, p) {
      FewSurvive(s.reg.completed, p);
    }
  }

  lemma RegisterKeeps(s: Sys, t: Thread, pid: Pid)
    requires Fresh(s) && Inv(s) && InPhase(s, t, Spawned(pid))
    ensures Inv(DoRegister(s, t, pid))
  {
    var s' := DoRegister(s, t, pid);
    assert PendingThreads(s') == PendingThreads(s) - {t} && t in PendingThreads(s);
    forall u | u in s'.phase ensures ThreadOk(s', u) { RegisterThread(s, t, pid, u); }
    forall p ensures PidOk(s', p) { RegisterPid(s, t, pid, p); }
    forall u, v ensures PairOk(s', u, v) { assert PairOk(s, u, v); }
  }

  lemma RegisterThread(s: Sys, t: Thread, pid: Pid, u: Thread)
    requires Fresh(s) && Inv(s) && InPhase(s, t, Spawned(pid)) && u in s.phase
    ensures ThreadOk(DoRegister(s, t, pid), u)
  {
    assert ThreadOk(s, t) && PidOk(s, pid) && ThreadOk(s, u) && PairOk(s, t, u);
    SurvivorsAreKept(DoRegister(s, t, pid).reg.completed);
  }

  lemma RegisterPid(s: Sys, t: Thread, pid: Pid, p: Pid)
    requires Fresh(s) && Inv(s) && InPhase(s, t, Spawned(pid))
    ensures PidOk(DoRegister(s, t, pid), p)
  {
    assert ThreadOk(s, t) && PidOk(s, p);
    SurvivorsAreKept(DoRegister(s, t, pid).reg.completed);
  }

  lemma CollectKeeps(s: Sys, pid: Pid, code: int)
    requires Inv(s) && s.collected.None? && (pid in s.children || pid in s.strays)
    ensures Inv(DoCollect(s, pid, code))
  {
    var s' := DoCollect(s, pid, code);
    assert PendingThreads(s') == PendingThreads(s);
    assert PidOk(s, pid);
    forall u | u in s'.phase ensures ThreadOk(s', u) { assert ThreadOk(s, u); CollectThread(s, pid, code, u); }
    forall p ensures PidOk(s', p) { assert PidOk(s, p); CollectPid(s, pid, code, p); }
    forall u, v ensures PairOk(s', u, v) { assert PairOk(s, u, v); }
  }

  lemma CollectThread(s: Sys, pid: Pid, code: int, u: Thread)
    requires s.collected.None? && (pid in s.children || pid in s.strays) && PidOk(s, pid)
    requires u in s.phase && ThreadOk(s, u)
    ensures ThreadOk(DoCollect(s, pid, code), u)
  {
  }

  lemma CollectPid(s: Sys, pid: Pid, code: int, p: Pid)
    requires s.collected.None? && (pid in s.children || pid in s.strays) && PidOk(s, pid) && PidOk(s, p)
    ensures PidOk(DoCollect(s, pid, code), p)
  {
  }

  lemma RecordKeeps(s: Sys, e: Exit, at: int)
    requires Fresh(s) && Inv(s) && s.collected == Some(e)
    ensures Inv(DoRecord(s, e, at))
  {
    var s' := DoRecord(s, e, at);
    assert PendingThreads(s') == PendingThreads(s);
    assert PidOk(s, e.pid);
    forall u | u in s'.phase ensures ThreadOk(s', u) { RecordThread(s, e, at, u); }
    forall p ensures PidOk(s', p) { assert PidOk(s, p); RecordPid(s, e, at, p); }
    forall u, v ensures PairOk(s', u, v) { assert PairOk(s, u, v); }
  }

  lemma RecordPid(s: Sys, e: Exit, at: int, p: Pid)
    requires Fresh(s) && PidOk(s, p) && PidOk(s, e.pid) && s.collected == Some(e)
    ensures PidOk(DoRecord(s, e, at), p)
  {
    SurvivorsAreKept(DoRecord(s, e, at).reg.completed);
  }

  lemma RecordThread(s: Sys, e: Exit, at: int, u: Thread)
    requires Fresh(s) && Inv(s) && s.collected == Some(e) && u in s.phase
    ensures ThreadOk(DoRecord(s, e, at), u)
  {
    assert PidOk(s, e.pid) && ThreadOk(s, u);
    SurvivorsAreKept(DoRecord(s, e, at).reg.completed);
    if e.owner == Some(u) {
      RecordOwner(s, e, at, u);
    } else {
      assert s.phase[u] != Spawned(e.pid);
      assert e.pid in s.reg.waiters ==> s.reg.waiters[e.pid] != u;
    }
  }

  /** The exit of a thread's own child reaches its channel, or is kept for it. */
  lemma RecordOwner(s: Sys, e: Exit, at: int, u: Thread)
    requires Fresh(s) && Inv(s) && s.collected == Some(e) && e.owner == Some(u) && u in s.phase
    ensures ThreadOk(DoRecord(s, e, at), u)
  {
    assert PidOk(s, e.pid) && ThreadOk(s, u);
    if s.phase[u].Spawned? {
      assert u in PendingThreads(s);
      assert s.reg.pending > 0;
    }
  }

  lemma StepKeeps(s: Sys, a: Action)
    requires Inv(s) && Enabled(s, a) && Careful(s, a)
    ensures Inv(Step(s, a))
  {
    match a {
      case Begin(t, now, kept) => PruneKeeps(s, kept, now); BeginKeeps(Prune(s, kept), t);
      case Cancel(t, now, kept) => PruneKeeps(s, kept, now); CancelKeeps(Prune(s, kept), t);
      case Spawn(t, pid) => FreeIsUnnamed(s, pid); SpawnKeeps(s, t, pid);
      case Stray(pid) => FreeIsUnnamed(s, pid); StrayKeeps(s, pid);
      case Register(t, now, kept) =>
        PruneKeeps(s, kept, now); PrunedIsFresh(Prune(s, kept)); RegisterKeeps(Prune(s, kept), t, s.phase[t].pid);
      case Collect(pid, code) => CollectKeeps(s, pid, code);
      case RecordExit(now, at, kept) =>
        PruneKeeps(s, kept, now); PrunedIsFresh(Prune(s, kept)); RecordKeeps(Prune(s, kept), s.collected.value, at);
    }
  }

  /* ---- whole runs ---- */

  ghost predicate IsRun(states: seq<Sys>, actions: seq<Action>) {
    && |states| == |actions| + 1 && states[0] == INITIAL
    && forall i :: 0 <= i < |actions| ==> Enabled(states[i], actions[i]) && states[i + 1] == Step(states[i], actions[i])
  }

  /** No pid is handed out while somebody else is still to be told about it. */
  ghost predicate IsCareful(states: seq<Sys>, actions: seq<Action>) {
    |states| > |actions| && forall i :: 0 <= i < |actions| ==> Careful(states[i], actions[i])
  }

  lemma {:induction false} RunKeeps(states: seq<Sys>, actions: seq<Action>, i: nat)
    requires IsRun(states, actions) && IsCareful(states, actions) && i < |states|
    ensures Inv(states[i])
  {
    if i == 0 {
      assert PendingThreads(INITIAL) == {};
    } else {
      RunKeeps(states, actions, i - 1);
      StepKeeps(states[i - 1], actions[i - 1]);
    }
  }

  /**
   * The thread was sent exactly its own child's code, once, if it registered and the
   * code was neither lost nor is yet to come.
   */
  predicate Served(s: Sys, t: Thread) {
    && t in s.phase && t in s.inbox
    && (s.phase[t].Waiting? && t in s.exits && t !in s.lost ==> s.inbox[t] == [s.exits[t]])
    && (!s.phase[t].Waiting? || t !in s.exits || t in s.lost ==> s.inbox[t] == [])
  }

  /** In every reachable state, whichever of register and record came first. */
  lemma ExactlyOnce(states: seq<Sys>, actions: seq<Action>, i: nat, t: Thread)
    requires IsRun(states, actions) && IsCareful(states, actions) && i < |states| && t in states[i].phase
    ensures Served(states[i], t)
  {
    RunKeeps(states, actions, i);
    assert ThreadOk(states[i], t);
  }

  /** A channel only ever carries more: whatever a thread was sent stays sent. */
  lemma StepAppends(s: Sys, a: Action, t: Thread)
    requires Inv(s) && Enabled(s, a) && t in s.phase
    ensures t in Step(s, a).phase && t in Step(s, a).inbox && s.inbox[t] <= Step(s, a).inbox[t]
  {
    assert ThreadOk(s, t);
  }

  predicate Extends(s: Sys, s': Sys, t: Thread) {
    t in s.inbox && t in s'.phase && t in s'.inbox && s.inbox[t] <= s'.inbox[t]
  }

  lemma RunAppends(states: seq<Sys>, actions: seq<Action>, i: nat, t: Thread)
    requires IsRun(states, actions) && IsCareful(states, actions) && i < |states| && t in states[i].phase
    ensures Extends(states[i], states[i], t)
    ensures i < |actions| ==> Extends(states[i], states[i + 1], t)
  {
    RunKeeps(states, actions, i);
    assert ThreadOk(states[i], t);
    if i < |actions| {
      StepAppends(states[i], actions[i], t);
    }
  }

  lemma {:induction false} SentStaysSent(states: seq<Sys>, actions: seq<Action>, i: nat, j: nat, t: Thread)
    requires IsRun(states, actions) && IsCareful(states, actions) && i <= j < |states| && t in states[i].phase
    ensures t in states[i].inbox && t in states[j].phase && t in states[j].inbox
            && states[i].inbox[t] <= states[j].inbox[t]
    decreases j
  {
    if i == j {
      RunAppends(states, actions, i, t);
    } else {
      SentStaysSent(states, actions, i, j - 1, t);
      RunAppends(states, actions, j - 1, t);
    }
  }

  /* ---- the registry itself needs nothing of pids ---- */

  predicate Disjoint(r: Registry) {
    forall p :: p in r.waiters ==> p !in r.completed
  }

  ghost predicate Registered(s: Sys) {
    && Disjoint(s.reg) && Counts(s) && (forall p :: p in s.children ==> s.children[p] in s.phase)
    && (s.collected.Some? && s.collected.value.owner.Some? ==> s.collected.value.owner.value in s.phase)
  }

  lemma RegisterDisjoint(r: Registry, kept: map<Pid, Record>, pid: Pid, t: Thread)
    requires Disjoint(r) && Submap(kept, r.completed)
    ensures Disjoint(RegisterStep(r, kept, pid, t).0) && |RegisterStep(r, kept, pid, t).0.completed| <= |kept|
  {
    assert (kept - {pid}).Keys == kept.Keys - {pid};
  }

  lemma RecordDisjoint(r: Registry, kept: map<Pid, Record>, pid: Pid, code: int, at: int)
    requires Disjoint(r) && Submap(kept, r.completed)
    ensures Disjoint(RecordStep(r, kept, pid, code, at).0)
            && |RecordStep(r, kept, pid, code, at).0.completed| <= |kept| + 1
  {
    if pid !in r.waiters && r.pending > 0 {
      assert kept[pid := Record(code, at)].Keys == kept.Keys + {pid};
    }
  }

  lemma PruneRegistered(s: Sys, kept: map<Pid, Record>, now: int)
    requires Registered(s) && Pruned(s.reg.completed, kept, now)
    ensures Registered(Prune(s, kept)) && |kept| <= MAX_RECORDS
  {
    PrunedBound(s.reg.completed, kept, now);
    assert PendingThreads(Prune(s, kept)) == PendingThreads(s);
  }

  lemma BeginRegistered(s: Sys, t: Thread)
    requires Registered(s) && t !in s.phase
    ensures Registered(Began(s, t))
  {
    assert PendingThreads(Began(s, t)) == PendingThreads(s) + {t};
  }

  lemma CancelRegistered(s: Sys, t: Thread)
    requires Registered(s) && InPhase(s, t, Begun)
    ensures Registered(Cancelling(s, t))
  {
    assert PendingThreads(Cancelling(s, t)) == PendingThreads(s) - {t} && t in PendingThreads(s);
  }

  lemma SpawnRegistered(s: Sys, t: Thread, pid: Pid)
    requires Registered(s) && InPhase(s, t, Begun)
    ensures Registered(Step(s, Spawn(t, pid)))
  {
    assert PendingThreads(Step(s, Spawn(t, pid))) == PendingThreads(s);
  }

  lemma RegisterCounts(s: Sys, t: Thread, pid: Pid)
    requires Counts(s) && InPhase(s, t, Spawned(pid))
    ensures DoRegister(s, t, pid).reg.pending == |PendingThreads(DoRegister(s, t, pid))|
  {
    assert PendingThreads(DoRegister(s, t, pid)) == PendingThreads(s) - {t} && t in PendingThreads(s);
  }

  lemma RegisterRegistered(s: Sys, t: Thread, pid: Pid)
    requires Registered(s) && InPhase(s, t, Spawned(pid))
    ensures Registered(DoRegister(s, t, pid))
  {
    RegisterDisjoint(s.reg, s.reg.completed, pid, t);
    RegisterCounts(s, t, pid);
  }

  lemma RecordRegistered(s: Sys, e: Exit, at: int)
    requires Registered(s) && s.collected == Some(e) && |s.reg.completed| <= MAX_RECORDS
    ensures Registered(DoRecord(s, e, at))
  {
    RecordDisjoint(s.reg, s.reg.completed, e.pid, e.code, at);
    assert PendingThreads(DoRecord(s, e, at)) == PendingThreads(s);
  }

  /** Bounds, disjointness and the pending count survive any enabled action, whatever pids are handed out. */
  lemma RegistryKeeps(s: Sys, a: Action)
    requires Registered(s) && Enabled(s, a)
    ensures Registered(Step(s, a))
  {
    match a {
      case Begin(t, now, kept) => PruneRegistered(s, kept, now); BeginRegistered(Prune(s, kept), t);
      case Cancel(t, now, kept) => PruneRegistered(s, kept, now); CancelRegistered(Prune(s, kept), t);
      case Spawn(t, pid) => SpawnRegistered(s, t, pid);
      case Stray(pid) => assert PendingThreads(Step(s, a)) == PendingThreads(s);
      case Register(t, now, kept) =>
        PruneRegistered(s, kept, now); RegisterRegistered(Prune(s, kept), t, s.phase[t].pid);
      case Collect(pid, code) => assert PendingThreads(Step(s, a)) == PendingThreads(s);
      case RecordExit(now, at, kept) =>
        PruneRegistered(s, kept, now); RecordRegistered(Prune(s, kept), s.collected.value, at);
    }
  }

  lemma {:induction false} RegistryInRuns(states: seq<Sys>, actions: seq<Action>, i: nat)
    requires IsRun(states, actions) && i < |states|
    ensures Registered(states[i])
  {
    if i == 0 {
      assert PendingThreads(INITIAL) == {};
    } else {
      RegistryInRuns(states, actions, i - 1);
      RegistryKeeps(states[i - 1], actions[i - 1]);
    }
  }

  lemma RegistryBounds(states: seq<Sys>, actions: seq<Action>, i: nat)
    requires IsRun(states, actions) && i < |states|
    ensures |states[i].reg.completed| <= 129
    ensures states[i].reg.waiters.Keys !! states[i].reg.completed.Keys
    ensures states[i].reg.pending ==
            |set t | t in states[i].phase && (states[i].phase[t].Begun? || states[i].phase[t].Spawned?)|
  {
    RegistryInRuns(states, actions, i);
    var s := states[i];
    forall p | p in s.reg.waiters.Keys ensures p !in s.reg.completed.Keys { assert p in s.reg.waiters; }
    assert PendingThreads(s) == set t | t in s.phase && (s.phase[t].Begun? || s.phase[t].Spawned?);
  }

  /** A thread is lost only in a critical section that prunes its child's record, by age or by count. */
  lemma LostOnlyByPruning(states: seq<Sys>, actions: seq<Action>, i: nat, t: Thread)
    requires IsRun(states, actions) && i < |actions|
    requires t !in states[i].lost && t in states[i + 1].lost
    ensures var s, a := states[i], actions[i];
            && !a.Spawn? && !a.Stray? && !a.Collect?
            && t in s.phase && s.phase[t].Spawned? && s.phase[t].pid in s.reg.completed
            && var record := s.reg.completed[s.phase[t].pid];
            && (a.now - record.at > MAX_AGE ||
                (|a.kept| == MAX_RECORDS
                 && forall q :: q in a.kept ==> q in s.reg.completed && record.at <= s.reg.completed[q].at))
  {
    var s, a := states[i], actions[i];
    assert Enabled(s, a) && states[i + 1] == Step(s, a);
    assert !a.Spawn? && !a.Stray? && !a.Collect?;
    assert t in Dropped(s, a.kept);
    PruneCause(s.reg.completed, a.kept, a.now, s.phase[t].pid);
  }

  /* ---- what a reused pid does ---- */

  /** A finite run of careful actions, each enabled where it is taken. */
  ghost predicate Reaches(s: Sys, actions: seq<Action>, s': Sys)
    decreases |actions|
  {
    if actions == [] then s' == s
    else Enabled(s, actions[0]) && Careful(s, actions[0]) && Reaches(Step(s, actions[0]), actions[1..], s')
  }

  lemma {:induction false} ReachesKeeps(s: Sys, actions: seq<Action>, s': Sys)
    requires Inv(s) && Reaches(s, actions, s')
    ensures Inv(s')
    decreases |actions|
  {
    if actions != [] {
      StepKeeps(s, actions[0]);
      ReachesKeeps(Step(s, actions[0]), actions[1..], s');
    }
  }

  /** From `s` on, careful actions never lead to a thread that is not served. */
  ghost predicate AlwaysServed(s: Sys) {
    forall actions: seq<Action>, s': Sys, t: Thread :: Reaches(s, actions, s') && t in s'.phase ==> Served(s', t)
  }

  lemma InvAlwaysServed(s: Sys)
    requires Inv(s)
    ensures AlwaysServed(s)
  {
    forall actions: seq<Action>, s': Sys, t: Thread | Reaches(s, actions, s') && t in s'.phase ensures Served(s', t) {
      ReachesKeeps(s, actions, s');
      assert ThreadOk(s', t);
    }
  }

  lemma MisledNow(s: Sys, t: Thread)
    requires t in s.phase && !Served(s, t)
    ensures !AlwaysServed(s)
  {
    assert Reaches(s, [], s);
  }

  lemma MisledLater(s: Sys, a: Action)
    requires Enabled(s, a) && Careful(s, a) && !AlwaysServed(Step(s, a))
    ensures !AlwaysServed(s)
  {
    var s1 := Step(s, a);
    var actions: seq<Action>, s': Sys, t: Thread :| Reaches(s1, actions, s') && t in s'.phase && !Served(s', t);
    assert ([a] + actions)[1..] == actions;
    assert Reaches(s, [a] + actions, s');
  }

  /** Late enough, every record is over age and pruning keeps none. */
  lemma AllExpire(records: map<Pid, Record>) returns (now: int)
    ensures Pruned(records, map[], now)
  {
    now := 0;
    if records.Keys != {} {
      var key := (p: Pid) => if p in records then -records[p].at else 0;
      var newest := Least(records.Keys, key);
      now := records[newest].at + MAX_AGE + 1;
      assert forall p :: p in records ==> key(newest) <= key(p);
      assert forall p :: p in records ==> now - records[p].at > MAX_AGE;
    }
    assert Recent(records, now) == map[];
  }

  /** A thread that waits behind a stale waiter is sent the code of whoever has the pid now. */
  lemma WaiterMisled(s: Sys, t: Thread, pid: Pid)
    requires t in s.lost && InPhase(s, t, Waiting(pid)) && t in s.inbox
    requires pid in s.reg.waiters && s.reg.waiters[pid] == t && (pid in s.children || pid in s.strays)
    ensures !AlwaysServed(s)
  {
    var now := AllExpire(s.reg.completed);
    if s.collected.Some? {
      var a := RecordExit(now, now, map[]);
      var s' := Step(s, a);
      if s'.inbox[t] == [] {
        IdleWaiterMisled(s', t, pid);
      } else {
        MisledNow(s', t);
      }
      MisledLater(s, a);
    } else {
      IdleWaiterMisled(s, t, pid);
    }
  }

  lemma IdleWaiterMisled(s: Sys, t: Thread, pid: Pid)
    requires s.collected.None? && t in s.lost && InPhase(s, t, Waiting(pid)) && t in s.inbox
    requires pid in s.reg.waiters && s.reg.waiters[pid] == t && (pid in s.children || pid in s.strays)
    ensures !AlwaysServed(s)
  {
    var now := AllExpire(s.reg.completed);
    var a, b := Collect(pid, 0), RecordExit(now, now, map[]);
    var s1 := Step(s, a);
    var s2 := Step(s1, b);
    assert t in s2.lost && s2.inbox[t] != [];
    MisledNow(s2, t);
    MisledLater(s1, b);
    MisledLater(s, a);
  }

  /** The same for a thread that has not registered yet: registering late makes it such a waiter. */
  lemma LateRegistrationMisled(s: Sys, t: Thread, pid: Pid)
    requires InPhase(s, t, Spawned(pid)) && t in s.inbox && (t in s.lost || (t in s.exits && pid in s.reg.completed))
    requires pid in s.children || pid in s.strays
    ensures !AlwaysServed(s)
  {
    var now := AllExpire(s.reg.completed);
    var a := Register(t, now, map[]);
    WaiterMisled(Step(s, a), t, pid);
    MisledLater(s, a);
  }

  /** A thread that lost its record, or has yet to ask for its recorded exit, is misled by the pid's next owner. */
  lemma HauntedMisled(s: Sys, s': Sys, t: Thread, pid: Pid)
    requires Inv(s) && FreePid(s, pid) && s'.reg == s.reg && s'.inbox == s.inbox && s'.exits == s.exits
    requires s'.lost == s.lost && t in s.phase && t in s'.phase && s'.phase[t] == s.phase[t]
    requires s.phase[t] == Spawned(pid) || (t in s.lost && s.phase[t] == Waiting(pid))
    requires (pid in s'.children || pid in s'.strays) && !CollectedFrom(s, pid, t)
    ensures !AlwaysServed(s')
  {
    assert ThreadOk(s, t);
    if s.phase[t] == Waiting(pid) {
      WaiterMisled(s', t, pid);
    } else {
      LateRegistrationMisled(s', t, pid);
    }
  }

  /** A thread whose child has the pid of the exit in the reaper's hand is sent that exit's code. */
  lemma CollectedMisled(s: Sys, u: Thread, pid: Pid)
    requires InPhase(s, u, Spawned(pid)) && u in s.inbox && u !in s.exits
    requires Collected(s, pid) && !CollectedFrom(s, pid, u)
    ensures !AlwaysServed(s)
  {
    var now := AllExpire(s.reg.completed);
    var a, b := Register(u, now, map[]), RecordExit(now, now, map[]);
    var s1 := Step(s, a);
    var s2 := Step(s1, b);
    assert s1.reg.completed == map[] && Recent(s1.reg.completed, now) == map[];
    assert u !in s2.exits && s2.inbox[u] != [];
    MisledNow(s2, u);
    MisledLater(s1, b);
    MisledLater(s, a);
  }

  /** A thread whose child has a pid of which a record is kept is sent that record's code. */
  lemma SurvivorMisled(s: Sys, u: Thread, pid: Pid)
    requires InPhase(s, u, Spawned(pid)) && u in s.inbox && u !in s.exits && Survives(s.reg.completed, pid)
    ensures !AlwaysServed(s)
  {
    var kept: map<Pid, Record>, now: int :| Pruned(s.reg.completed, kept, now) && pid in kept;
    var a := Register(u, now, kept);
    assert u !in Step(s, a).exits && Step(s, a).inbox[u] != [];
    MisledNow(Step(s, a), u);
    MisledLater(s, a);
  }

  /**
   * Giving a new child a free pid is harmless exactly when no thread is yet to ask for
   * it or waits for a pruned code of it, the reaper holds no unrecorded exit of it, and
   * no record of it can outlive the next pruning: then, and only then, every thread is
   * served whatever follows.
   */
  lemma SpawnHarmlessIff(s: Sys, u: Thread, pid: Pid)
    requires Inv(s) && InPhase(s, u, Begun) && FreePid(s, pid)
    ensures AlwaysServed(Step(s, Spawn(u, pid))) <==>
            !Haunted(s, pid) && !Collected(s, pid) && !Survives(s.reg.completed, pid)
  {
    var s' := Step(s, Spawn(u, pid));
    assert ThreadOk(s, u) && PidOk(s, pid);
    if Collected(s, pid) {
      CollectedMisled(s', u, pid);
    } else if Haunted(s, pid) {
      var t :| InPhase(s, t, Spawned(pid)) || (t in s.lost && InPhase(s, t, Waiting(pid)));
      HauntedMisled(s, s', t, pid);
    } else if Survives(s.reg.completed, pid) {
      SurvivorMisled(s', u, pid);
    } else {
      FreeIsUnnamed(s, pid);
      SpawnKeeps(s, u, pid);
      InvAlwaysServed(s');
    }
  }

  /** Until its thread registers, a recorded exit is overwritten by the next exit of the same pid. */
  lemma UnheardMisled(s: Sys, t: Thread, pid: Pid)
    requires InPhase(s, t, Spawned(pid)) && t in s.inbox && CollectedFrom(s, pid, t) && pid in s.strays
    requires pid !in s.children && pid !in s.reg.waiters && s.reg.pending > 0
    ensures !AlwaysServed(s)
  {
    var now := AllExpire(s.reg.completed);
    var a := RecordExit(now, now, map[]);
    var s1 := Step(s, a);
    var c := Collect(pid, s.collected.value.code + 1);
    var s2 := Step(s1, c);
    OverwrittenMisled(s2, t, pid);
    MisledLater(s1, c);
    MisledLater(s, a);
  }

  lemma OverwrittenMisled(s: Sys, t: Thread, pid: Pid)
    requires InPhase(s, t, Spawned(pid)) && t in s.inbox && t in s.exits && s.reg.pending > 0
    requires pid !in s.reg.waiters && Collected(s, pid) && s.collected.value.owner.None?
    requires s.collected.value.code != s.exits[t]
    ensures !AlwaysServed(s)
  {
    var now := AllExpire(s.reg.completed);
    var a, b := RecordExit(now, now, map[]), Register(t, now, map[pid := Record(s.collected.value.code, now)]);
    var s1 := Step(s, a);
    assert Recent(s1.reg.completed, now) == b.kept;
    var s2 := Step(s1, b);
    assert s2.inbox[t] != [] && s2.inbox[t][|s2.inbox[t]| - 1] == s.collected.value.code;
    MisledNow(s2, t);
    MisledLater(s1, b);
    MisledLater(s, a);
  }

  /** The same for a process that belongs to no exec thread: there only the threads that name the pid matter. */
  lemma StrayHarmlessIff(s: Sys, pid: Pid)
    requires Inv(s) && FreePid(s, pid)
    ensures AlwaysServed(Step(s, Stray(pid))) <==> !Haunted(s, pid)
  {
    var s' := Step(s, Stray(pid));
    if Haunted(s, pid) {
      var t :| InPhase(s, t, Spawned(pid)) || (t in s.lost && InPhase(s, t, Waiting(pid)));
      assert ThreadOk(s, t) && PidOk(s, pid);
      if CollectedFrom(s, pid, t) {
        assert t in PendingThreads(s);
        UnheardMisled(s', t, pid);
      } else {
        HauntedMisled(s, s', t, pid);
      }
    } else {
      FreeIsUnnamed(s, pid);
      StrayKeeps(s, pid);
      InvAlwaysServed(s');
    }
  }

  /**
   * The waiter of a thread that registered after its record was pruned is never
   * removed: a new child with that pid has its exit code sent to the old thread,
   * and its own thread then waits for ever.
   */
  lemma StaleWaiterTakesCode(s: Sys, t: Thread, u: Thread, pid: Pid, code: int, at: int)
    requires Inv(s) && t in s.lost && InPhase(s, t, Waiting(pid)) && InPhase(s, u, Begun) && FreePid(s, pid)
    ensures var s1 := DoCollect(Step(s, Spawn(u, pid)), pid, code);
            var s2 := DoRegister(DoRecord(s1, s1.collected.value, at), u, pid);
            && s2.inbox[t] == [code] && s2.inbox[u] == [] && u in s2.exits && u !in s2.lost
            && InPhase(s2, u, Waiting(pid)) && pid in s2.reg.waiters && s2.reg.waiters[pid] == u && pid !in s2.children
  {
    assert ThreadOk(s, t) && ThreadOk(s, u) && PidOk(s, pid);
  }

  lemma ReachesOn(s: Sys, a: Action, s1: Sys, actions: seq<Action>, s': Sys)
    requires Enabled(s, a) && Careful(s, a) && s1 == Step(s, a) && Reaches(s1, actions, s')
    ensures Reaches(s, [a] + actions, s')
  {
    assert ([a] + actions)[1..] == actions;
  }

  /** The exit of thread 0's child is on record and the thread has yet to register; thread 1 has just begun. */
  function Unregistered(): Sys {
    Sys(Registry(map[], map[7 := Record(3, 0)], 2), map[0 := Spawned(7), 1 := Begun], map[], {}, None, map[0 := 3],
        map[0 := [], 1 := []], {})
  }

  /** Such a waiter arises when forty seconds pass between the exit and the registration. */
  lemma StaleWaiterArises() returns (actions: seq<Action>, s: Sys)
    ensures Reaches(INITIAL, actions, s) && 0 in s.lost && InPhase(s, 0, Waiting(7)) && InPhase(s, 1, Begun)
    ensures FreePid(s, 7) && Haunted(s, 7)
  {
    actions, s := WaitsTooLate();
    actions := ReachUnregistered(actions, s);
  }

  lemma WaitsTooLate() returns (actions: seq<Action>, s: Sys)
    ensures Reaches(Unregistered(), actions, s) && 0 in s.lost && InPhase(s, 0, Waiting(7)) && InPhase(s, 1, Begun)
    ensures FreePid(s, 7)
  {
    var a, b := Begin(2, 40_000, map[]), Register(0, 40_000, map[]);
    assert Recent(Unregistered().reg.completed, 40_000) == map[];
    var s1 := Step(Unregistered(), a);
    assert Recent(s1.reg.completed, 40_000) == map[];
    s := Step(s1, b);
    ReachesOn(s1, b, s, [], s);
    ReachesOn(Unregistered(), a, s1, [b], s);
    actions := [a] + [b];
  }

  lemma ReachUnregistered(rest: seq<Action>, s': Sys) returns (actions: seq<Action>)
    requires Reaches(Unregistered(), rest, s')
    ensures Reaches(INITIAL, actions, s')
  {
    var record := RecordExit(0, 0, map[]);
    RecordOnce();
    ReachesOn(Held(), record, Unregistered(), rest, s');
    actions := ReachHeld([record] + rest, s');
  }

  lemma ReachHeld(rest: seq<Action>, s': Sys) returns (actions: seq<Action>)
    requires Reaches(Held(), rest, s')
    ensures Reaches(INITIAL, actions, s')
  {
    HeldIs();
    actions := ReachCollected(TwoBegun(), Held(), rest, s');
    actions := ReachTwoBegun(actions, s');
  }

  lemma RecordOnce()
    ensures Enabled(Held(), RecordExit(0, 0, map[])) && Step(Held(), RecordExit(0, 0, map[])) == Unregistered()
  {
    assert Recent(map[], 0) == map[];
    assert Prune(Held(), map[]) == Held();
  }

  /** Waitpid has returned that exit. */
  function Held(): Sys {
    TwoBegun().(phase := map[0 := Spawned(7), 1 := Begun], collected := Some(Exit(7, 3, Some(0))))
  }

  lemma HeldIs()
    ensures var s := TwoBegun();
            && Held() == s.(phase := s.phase[0 := Spawned(7)], collected := Some(Exit(7, 3, Some(0))))
            && InPhase(s, 0, Begun) && forall t :: !InPhase(s, t, Spawned(7))
  {
    assert map[0 := Begun, 1 := Begun][0 := Spawned(7)] == map[0 := Spawned(7), 1 := Begun];
  }

  function TwoBegun(): Sys {
    INITIAL.(reg := Registry(map[], map[], 2), phase := map[0 := Begun, 1 := Begun], inbox := map[0 := [], 1 := []])
  }

  lemma ReachTwoBegun(rest: seq<Action>, s': Sys) returns (actions: seq<Action>)
    requires Reaches(TwoBegun(), rest, s')
    ensures Reaches(INITIAL, actions, s')
  {
    var a, b := Begin(0, 0, map[]), Begin(1, 0, map[]);
    assert Recent(map[], 0) == map[];
    ReachesOn(Step(INITIAL, a), b, TwoBegun(), rest, s');
    ReachesOn(INITIAL, a, Step(INITIAL, a), [b] + rest, s');
    actions := [a] + ([b] + rest);
  }

  lemma ReachCollected(s2: Sys, s4: Sys, rest: seq<Action>, s': Sys) returns (actions: seq<Action>)
    requires s2.lost == {} && s2.collected.None? && s2.reg.completed == map[] && FreePid(s2, 7)
    requires InPhase(s2, 0, Begun) && forall t :: !InPhase(s2, t, Spawned(7))
    requires s4 == s2.(phase := s2.phase[0 := Spawned(7)], collected := Some(Exit(7, 3, Some(0))))
    requires Reaches(s4, rest, s')
    ensures Reaches(s2, actions, s')
  {
    SurvivorsAreKept(s2.reg.completed);
    var s3 := Step(s2, Spawn(0, 7));
    assert s2.children[7 := 0] - {7} == s2.children && s2.strays - {7} == s2.strays;
    ReachesOn(s3, Collect(7, 3), s4, rest, s');
    ReachesOn(s2, Spawn(0, 7), s3, [Collect(7, 3)] + rest, s');
    actions := [Spawn(0, 7)] + ([Collect(7, 3)] + rest);
  }

  /**
   * The window between waitpid and the record: a stray's exit is in the reaper's hand,
   * its free pid goes to an exec thread's child, and the thread is sent the stray's code
   * while its own child runs.
   */
  lemma CollectedPidMisleads(s: Sys, u: Thread, pid: Pid, code: int, now: int, at: int, kept: map<Pid, Record>)
    requires Inv(s) && s.collected.None? && pid in s.strays && pid !in s.reg.completed && InPhase(s, u, Begun)
    requires Pruned(s.reg.completed, kept, now)
    ensures var s1 := Step(s, Collect(pid, code));
            !Haunted(s1, pid) && !Survives(s1.reg.completed, pid) && Enabled(s1, Spawn(u, pid))
    ensures var s2 := Step(Step(s, Collect(pid, code)), Spawn(u, pid));
            var s3 := DoRecord(DoRegister(Prune(s2, kept), u, pid), s2.collected.value, at);
            s3.inbox[u] == [code] && u !in s3.exits && pid in s3.children && s3.children[pid] == u
            && pid !in s3.reg.waiters
  {
    StrayNotHaunted(s, pid);
    SurvivorsAreKept(s.reg.completed);
    assert ThreadOk(s, u) && PidOk(s, pid);
    CollectedIsSent(Step(Step(s, Collect(pid, code)), Spawn(u, pid)), u, pid, at, kept);
  }

  lemma CollectedIsSent(s: Sys, u: Thread, pid: Pid, at: int, kept: map<Pid, Record>)
    requires InPhase(s, u, Spawned(pid)) && u in s.inbox && s.inbox[u] == [] && u !in s.exits && pid !in kept
    requires Collected(s, pid) && s.collected.value.owner.None?
    ensures var s' := DoRecord(DoRegister(Prune(s, kept), u, pid), s.collected.value, at);
            s'.inbox[u] == [s.collected.value.code] && u !in s'.exits && s'.children == s.children
            && pid !in s'.reg.waiters
  {
  }

  lemma StrayNotHaunted(s: Sys, pid: Pid)
    requires Inv(s) && s.collected.None? && pid in s.strays
    ensures !Haunted(s, pid)
  {
    assert PidOk(s, pid);
    forall t ensures !InPhase(s, t, Spawned(pid)) && !(t in s.lost && InPhase(s, t, Waiting(pid))) {
      assert t in s.phase ==> ThreadOk(s, t);
    }
  }

  /**
   * Why pids must not be reused while a record is kept: a child that gets the pid
   * of a recorded exit makes its thread receive that exit's code, before any of its own.
   */
  lemma ReusedPidMisleads(s: Sys, t: Thread, pid: Pid)
    requires InPhase(s, t, Begun) && t in s.inbox && s.inbox[t] == [] && t !in s.exits && pid in s.reg.completed
    ensures var s' := DoRegister(Step(s, Spawn(t, pid)), t, pid);
            InPhase(s', t, Waiting(pid)) && t !in s'.exits && s'.inbox[t] == [s.reg.completed[pid].code]
  {
  }
}
