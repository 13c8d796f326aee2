/**
 * The guest agent's exit registry: exec threads race with the PID 1 reaper over
 * who learns of a child's exit first (qarax-init/src/main.rs).
 */
module ExitRegistry {
  import opened Common

  type Pid = int
  type Thread = nat

  const MAX_RECORDS := 128
  /** Milliseconds a record is kept. */
  const MAX_AGE := 30_000

  datatype Record = Record(code: int, at: int)

  /** The state behind the mutex; a waiter is named by the thread that holds its receiver. */
  datatype Registry = Registry(waiters: map<Pid, Thread>, completed: map<Pid, Record>, pending: nat)

  /* ---- pruning ---- */

  function Recent(records: map<Pid, Record>, now: int): map<Pid, Record> {
    map p | p in records && now - records[p].at <= MAX_AGE :: records[p]
  }

  predicate Submap(a: map<Pid, Record>, b: map<Pid, Record>) {
    forall p :: p in a ==> p in b && a[p] == b[p]
  }

  /** No dropped record is newer than a kept one. */
  predicate OldestGone(all: map<Pid, Record>, kept: map<Pid, Record>) {
    forall p, q :: p in all && p !in kept && q in kept && q in all ==> all[p].at <= all[q].at
  }

  /** What pruning may leave: everything recent, or the newest 128; ties are broken arbitrarily. */
  ghost predicate Pruned(before: map<Pid, Record>, after: map<Pid, Record>, now: int) {
    var recent := Recent(before, now);
    && Submap(after, recent)
    && (|recent| <= MAX_RECORDS ==> after == recent)
    && (|recent| > MAX_RECORDS ==> |after| == MAX_RECORDS && OldestGone(recent, after))
  }

  /** A record vanishes only when it is over 30 seconds old or when 128 others at least as new are kept. */
  lemma PruneCause(before: map<Pid, Record>, after: map<Pid, Record>, now: int, p: Pid)
    requires Pruned(before, after, now) && p in before && p !in after
    ensures now - before[p].at > 30_000 ||
            (|after| == 128 && forall q :: q in after ==> q in before && before[p].at <= before[q].at)
  {
  }

  /** What is kept is unchanged, at most 30 seconds old, and at most 128 records. */
  lemma PruneLeaves(before: map<Pid, Record>, after: map<Pid, Record>, now: int)
    requires Pruned(before, after, now)
    ensures |after| <= 128
    ensures forall p :: p in after ==> p in before && after[p] == before[p] && now - after[p].at <= 30_000
  {
  }

  lemma PrunedBound(before: map<Pid, Record>, after: map<Pid, Record>, now: int)
    requires Pruned(before, after, now)
    ensures |after| <= MAX_RECORDS && Submap(after, before)
  {
  }

  /** Some pruning keeps the record. */
  ghost predicate Survives(records: map<Pid, Record>, p: Pid) {
    exists kept: map<Pid, Record>, now: int :: Pruned(records, kept, now) && p in kept
  }

  lemma SurvivorsAreKept(records: map<Pid, Record>)
    ensures forall p :: Survives(records, p) ==> p in records
  {
  }

  lemma FewSurvive(records: map<Pid, Record>, p: Pid)
    requires |records| <= MAX_RECORDS && p in records
    ensures Survives(records, p)
  {
    var now := records[p].at;
    RecentIsFewer(records, now);
    assert Pruned(records, Recent(records, now), now);
  }

  lemma RecentIsFewer(records: map<Pid, Record>, now: int)
    ensures |Recent(records, now)| <= |records|
  {
    var recent := Recent(records, now);
    assert recent.Keys <= records.Keys;
    SubsetSize(recent.Keys, records.Keys);
    assert |recent| == |recent.Keys| && |records| == |records.Keys|;
  }

  /** Of at most 129 records exactly the one that alone is oldest of 129 cannot outlive the next pruning. */
  lemma SurvivesIff(records: map<Pid, Record>, p: Pid)
    requires |records| <= MAX_RECORDS + 1
    ensures Survives(records, p) <==>
            && p in records
            && (|records| <= MAX_RECORDS || exists q :: q in records && q != p && records[q].at <= records[p].at)
  {
    SurvivorsAreKept(records);
    if p in records && |records| > MAX_RECORDS {
      if exists q :: q in records && q != p && records[q].at <= records[p].at {
        NotOldestSurvives(records, p);
      } else {
        forall kept: map<Pid, Record>, now: int | Pruned(records, kept, now) ensures p !in kept {
          OldestGoes(records, p, kept, now);
        }
      }
    } else if p in records {
      FewSurvive(records, p);
    }
  }

  lemma OldestGoes(records: map<Pid, Record>, p: Pid, kept: map<Pid, Record>, now: int)
    requires |records| == MAX_RECORDS + 1 && Pruned(records, kept, now)
    requires p in records && forall q :: q in records && q != p ==> records[q].at > records[p].at
    ensures p !in kept
  {
    if p in Recent(records, now) {
      assert Recent(records, now) == records;
      var q := SomeDropped(records, kept);
    }
  }

  lemma SomeDropped(records: map<Pid, Record>, kept: map<Pid, Record>) returns (p: Pid)
    requires |kept| < |records|
    ensures p in records && p !in kept
  {
    assert |records| == |records.Keys| && |kept| == |kept.Keys|;
    if forall q :: q in records.Keys ==> q in kept.Keys {
      SubsetSize(records.Keys, kept.Keys);
    }
    p :| p in records && p !in kept;
  }

  lemma NotOldestSurvives(records: map<Pid, Record>, p: Pid)
    requires |records| == MAX_RECORDS + 1 && p in records
    requires exists q :: q in records && q != p && records[q].at <= records[p].at
    ensures Survives(records, p)
  {
    var key := (q: Pid) => if q in records then records[q].at else 0;
    var q :| q in records && q != p && records[q].at <= records[p].at;
    assert q in records.Keys - {p};
    var oldest := Least(records.Keys - {p}, key);
    var now, kept := records[oldest].at, records - {oldest};
    assert key(oldest) <= key(q) && forall r :: r in records.Keys - {p} ==> key(oldest) <= key(r);
    assert forall r :: r in records ==> r == p || r in records.Keys - {p};
    assert Recent(records, now) == records;
    assert kept.Keys == records.Keys - {oldest} && |kept| == |kept.Keys|;
    assert Pruned(records, kept, now);
  }

  /* ---- the critical sections ---- */

  function Decrement(n: nat): nat {
    if n == 0 then 0 else n - 1
  }

  function BeginStep(r: Registry, kept: map<Pid, Record>): Registry {
    r.(pending := r.pending + 1, completed := kept)
  }

  function CancelStep(r: Registry, kept: map<Pid, Record>): Registry {
    r.(pending := Decrement(r.pending), completed := kept)
  }

  /** The exit may already be on record: then it is handed over at once. */
  function RegisterStep(r: Registry, kept: map<Pid, Record>, pid: Pid, t: Thread): (Registry, Option<int>) {
    var r' := CancelStep(r, kept);
    if pid in kept then (r'.(completed := kept - {pid}), Some(kept[pid].code))
    else (r'.(waiters := r.waiters[pid := t]), None)
  }

  /** A waiter gets the code; otherwise it is kept only while some registration is pending. */
  function RecordStep(r: Registry, kept: map<Pid, Record>, pid: Pid, code: int, at: int): (Registry, Option<Thread>) {
    var r' := r.(completed := kept);
    if pid in r.waiters then (r'.(waiters := r.waiters - {pid}), Some(r.waiters[pid]))
    else if r.pending > 0 then (r'.(completed := kept[pid := Record(code, at)]), None)
    else (r', None)
  }

  class Shared {
    var waiters: map<Pid, Thread>
    var completed: map<Pid, Record>
    var pending: nat

    ghost function State(): Registry
      reads this
    {
      Registry(waiters, completed, pending)
    }

    constructor ()
      ensures State() == Registry(map[], map[], 0)
    {
      waiters, completed, pending := map[], map[], 0;
    }

    /** prune_completed_exits. */
    method Prune(now: int)
      modifies this`completed
      ensures Pruned(old(completed), completed, now)
    {
      completed := Recent(completed, now);
      if |completed| <= MAX_RECORDS {
        return;
      }
      var order := ByAge(completed);
      DropOldest(order, |completed| - MAX_RECORDS);
    }

    /** Removes the first `surplus` records of the list. */
    method DropOldest(order: seq<Pid>, surplus: nat)
      requires surplus <= |order| == |completed| && OldestFirst(completed, order)
      requires forall p :: p in order <==> p in completed
      modifies this`completed
      ensures Submap(completed, old(completed)) && |completed| == |old(completed)| - surplus
              && OldestGone(old(completed), completed)
    {
      for i := 0 to surplus
        invariant completed == Without(old(completed), order[..i]) && |completed| == |old(completed)| - i
      {
        OneOlderGone(old(completed), order, i);
        completed := completed - {order[i]};
      }
      DroppedAreOldest(old(completed), order, surplus);
    }

    /** begin_exec_registration. */
    method Begin(now: int)
      modifies this
      ensures Pruned(old(completed), completed, now) && State() == BeginStep(old(State()), completed)
      ensures waiters == old(waiters) && pending == old(pending) + 1
    {
      pending := pending + 1;
      Prune(now);
    }

    /** cancel_exec_registration. */
    method Cancel(now: int)
      modifies this
      ensures Pruned(old(completed), completed, now) && State() == CancelStep(old(State()), completed)
      ensures waiters == old(waiters) && pending == if old(pending) == 0 then 0 else old(pending) - 1
    {
      pending := Decrement(pending);
      Prune(now);
    }

    /** register_exec_waiter; the result is what was sent on the new channel. */
    method Register(now: int, pid: Pid, t: Thread) returns (sent: Option<int>, ghost kept: map<Pid, Record>)
      modifies this
      ensures Pruned(old(completed), kept, now) && (State(), sent) == RegisterStep(old(State()), kept, pid, t)
      ensures sent == (if pid in kept then Some(kept[pid].code) else None) && completed == kept - {pid}
      ensures waiters == if pid in kept then old(waiters) else old(waiters)[pid := t]
      ensures pending == if old(pending) == 0 then 0 else old(pending) - 1
    {
      pending := Decrement(pending);
      Prune(now);
      kept := completed;
      if pid in completed {
        sent := Some(completed[pid].code);
        completed := completed - {pid};
      } else {
        sent := None;
        waiters := waiters[pid := t];
        assert kept - {pid} == kept;
      }
    }

    /** record_child_exit; the result is the thread the code was sent to. */
    method RecordExit(now: int, at: int, pid: Pid, code: int) returns (to: Option<Thread>, ghost kept: map<Pid, Record>)
      modifies this
      ensures Pruned(old(completed), kept, now) && (State(), to) == RecordStep(old(State()), kept, pid, code, at)
      ensures to == (if pid in old(waiters) then Some(old(waiters)[pid]) else None) && waiters == old(waiters) - {pid}
      ensures completed == if pid !in old(waiters) && pending > 0 then kept[pid := Record(code, at)] else kept
      ensures pending == old(pending)
    {
      Prune(now);
      kept := completed;
      to := None;
      assert pid !in waiters ==> waiters - {pid} == waiters;
      if pid in waiters {
        to := Some(waiters[pid]);
        waiters := waiters - {pid};
      } else if pending > 0 {
        completed := completed[pid := Record(code, at)];
      }
    }
  }

  function Without(records: map<Pid, Record>, gone: seq<Pid>): map<Pid, Record> {
    map p | p in records && p !in gone :: records[p]
  }

  lemma OneFewer(records: map<Pid, Record>, p: Pid)
    requires p in records
    ensures |records - {p}| == |records| - 1
  {
    assert (records - {p}).Keys == records.Keys - {p};
    assert |records.Keys| == |records| && |(records - {p}).Keys| == |records - {p}|;
  }

  lemma OneOlderGone(records: map<Pid, Record>, order: seq<Pid>, i: nat)
    requires i < |order| && OldestFirst(records, order)
    ensures Without(records, order[..i]) - {order[i]} == Without(records, order[..i + 1])
    ensures |Without(records, order[..i]) - {order[i]}| == |Without(records, order[..i])| - 1
  {
    assert order[..i + 1] == order[..i] + [order[i]];
    assert order[i] in order && order[i] !in order[..i];
    OneFewer(Without(records, order[..i]), order[i]);
  }

  lemma DroppedAreOldest(records: map<Pid, Record>, order: seq<Pid>, n: nat)
    requires n <= |order| && OldestFirst(records, order) && forall p :: p in order <==> p in records
    ensures OldestGone(records, Without(records, order[..n]))
  {
    assert order == order[..n] + order[n..];
    forall p, q | p in records && p in order[..n] && q in records && q !in order[..n]
      ensures records[p].at <= records[q].at
    {
      var i :| 0 <= i < n && order[i] == p;
      assert q in order[n..];
      var j :| 0 <= j < |order[n..]| && order[n..][j] == q;
      assert order[n + j] == q;
    }
  }

  predicate OldestFirst(records: map<Pid, Record>, order: seq<Pid>) {
    && (forall p :: p in order ==> p in records)
    && forall i, j :: 0 <= i < j < |order| ==> order[i] != order[j] && records[order[i]].at <= records[order[j]].at
  }

  /** The pids of all records, oldest first. */
  method ByAge(records: map<Pid, Record>) returns (order: seq<Pid>)
    ensures |order| == |records| && forall p :: p in order <==> p in records
    ensures OldestFirst(records, order)
  {
    order := [];
    var left := records.Keys;
    while left != {}
      invariant left <= records.Keys && |order| + |left| == |records|
      invariant forall p :: p in order <==> p in records && p !in left
      invariant OldestFirst(records, order)
      invariant forall o, p :: o in order && p in left ==> o in records && records[o].at <= records[p].at
      decreases |left|
    {
      OldestExists(records, left);
      var p :| p in left && forall q :: q in left ==> records[p].at <= records[q].at;
      order := order + [p];
      left := left - {p};
    }
  }

  lemma OldestExists(records: map<Pid, Record>, left: set<Pid>)
    requires left != {} && left <= records.Keys
    ensures exists p :: p in left && forall q :: q in left ==> records[p].at <= records[q].at
  {
    var key := (p: Pid) => if p in records then records[p].at else 0;
    var p := Least(left, key);
    assert forall q :: q in left ==> key(p) <= key(q) && records[p].at <= records[q].at;
  }
}
