/**
 * One warm pool of sandbox VMs: the periodic sync trims and refills it while
 * readiness watchers and claims change member rows between its queries
 * (qarax/src/sandbox_pool_manager.rs).
 */
module SandboxPool {

  datatype Status = Provisioning | Ready | Error | Destroying | Gone

  /** What others do to a row: a watcher reports, or a sandbox claims a ready member. */
  datatype Event = TurnsReady(id: nat) | TurnsError(id: nat) | Claimed(id: nat)

  /** How one attempt to provision ends; the watcher of a started member reports later. */
  datatype Provision = NoRow | Started | StartFailed(marked: bool)

  /** Member rows in creation order; a row's identifier is its index. */
  type Rows = seq<Status>

  function Count(rows: Rows, s: Status): nat {
    if rows == [] then 0 else Count(rows[..|rows| - 1], s) + if rows[|rows| - 1] == s then 1 else 0
  }

  function Live(rows: Rows): nat {
    Count(rows, Ready) + Count(rows, Provisioning)
  }

  lemma {:induction false} CountSet(rows: Rows, i: nat, to: Status, s: Status)
    requires i < |rows|
    ensures Count(rows[i := to], s) == Count(rows, s) - (if rows[i] == s then 1 else 0) + (if to == s then 1 else 0)
  {
    var last := |rows| - 1;
    if i < last {
      assert rows[i := to][..last] == rows[..last][i := to];
      CountSet(rows[..last], i, to, s);
    } else {
      assert rows[i := to][..last] == rows[..last];
    }
  }

  lemma CountAppend(rows: Rows, to: Status, s: Status)
    ensures Count(rows + [to], s) == Count(rows, s) + if to == s then 1 else 0
  {
    assert (rows + [to])[..|rows|] == rows;
  }

  lemma SetCounts(rows: Rows, i: nat, to: Status)
    requires i < |rows|
    ensures Count(rows[i := to], Ready) ==
            Count(rows, Ready) - (if rows[i] == Ready then 1 else 0) + (if to == Ready then 1 else 0)
    ensures Count(rows[i := to], Provisioning) ==
            Count(rows, Provisioning)
            - (if rows[i] == Provisioning then 1 else 0) + (if to == Provisioning then 1 else 0)
  {
    CountSet(rows, i, to, Ready);
    CountSet(rows, i, to, Provisioning);
  }

  /** The members with a status, oldest first. */
  function Listing(rows: Rows, s: Status): (ids: seq<nat>)
    ensures |ids| == Count(rows, s)
    ensures forall k :: 0 <= k < |ids| ==> ids[k] < |rows| && rows[ids[k]] == s
    ensures forall j, k :: 0 <= j < k < |ids| ==> ids[j] < ids[k]
  {
    if rows == [] then []
    else
      var front := Listing(rows[..|rows| - 1], s);
      if rows[|rows| - 1] == s then front + [|rows| - 1] else front
  }

  function Max(a: int, b: int): int {
    if a < b then b else a
  }

  function Min(a: int, b: int): int {
    if a < b then a else b
  }

  /** A watcher only reports on a provisioning row and a claim only takes a ready one. */
  function After(rows: Rows, e: Event): Rows {
    if e.id >= |rows| || rows[e.id] != (if e.Claimed? then Ready else Provisioning) then rows
    else rows[e.id := if e.TurnsReady? then Ready else if e.TurnsError? then Error else Gone]
  }

  function AfterAll(rows: Rows, es: seq<Event>): (after: Rows)
    ensures |after| == |rows|
  {
    if es == [] then rows else After(AfterAll(rows, es[..|es| - 1]), es[|es| - 1])
  }

  predicate Alive(s: Status) {
    s == Ready || s == Provisioning
  }

  /** How many ready members the events claim. */
  function Claims(rows: Rows, es: seq<Event>): nat {
    if es == [] then 0
    else
      var front, last := es[..|es| - 1], es[|es| - 1];
      Claims(rows, front) + if last.Claimed? && After(AfterAll(rows, front), last) != AfterAll(rows, front) then 1
          else 0
  }

  /**
   * Events lower the ready count only by claims and never raise the live count; a row
   * no longer alive stays as it is.
   */
  lemma {:induction false} EventsMove(rows: Rows, es: seq<Event>)
    ensures var after := AfterAll(rows, es);
            && Count(after, Ready) >= Count(rows, Ready) - Claims(rows, es) && Live(after) <= Live(rows)
            && forall i :: 0 <= i < |rows| && !Alive(rows[i]) ==> after[i] == rows[i]
    decreases |es|
  {
    if es != [] {
      var front, last := es[..|es| - 1], es[|es| - 1];
      EventsMove(rows, front);
      var mid := AfterAll(rows, front);
      if last.id < |mid| {
        SetCounts(mid, last.id, if last.TurnsReady? then Ready else if last.TurnsError? then Error else Gone);
      }
    }
  }

  /* ---- the transcript ---- */

  datatype Kind = ListError | ListReady | Mark(id: nat) | Delete(id: nat) | CountReady | CountProvisioning | Create

  /** One query: what it was, the rows before it, and the events that landed before it ran. */
  datatype Entry = Entry(kind: Kind, before: Rows, es: seq<Event>)

  /** The rows the query saw. */
  function Seen(e: Entry): Rows {
    AfterAll(e.before, e.es)
  }

  function ClaimTotal(log: seq<Entry>): nat {
    if log == [] then 0 else ClaimTotal(log[..|log| - 1]) + Claims(log[|log| - 1].before, log[|log| - 1].es)
  }

  predicate IsSecondCount(log: seq<Entry>, t: int) {
    0 < t < |log| && log[t].kind == CountProvisioning
  }

  /** What a refill's two counts missed, if query `t` was its second. */
  function MissedAt(log: seq<Entry>, t: int): int {
    if IsSecondCount(log, t) then Uncounted(Seen(log[t - 1]), Seen(log[t])) else 0
  }

  /** The most that the two counts of any refill missed, from query `n` on. */
  function Excess(log: seq<Entry>, n: nat): nat {
    if |log| <= n then 0 else Max(Excess(log[..|log| - 1], n), MissedAt(log, |log| - 1))
  }

  lemma {:induction false} ExcessMax(log: seq<Entry>, n: nat, t: int)
    requires n <= t < |log|
    ensures MissedAt(log, t) <= Excess(log, n)
  {
    if t < |log| - 1 {
      ExcessMax(log[..|log| - 1], n, t);
    }
  }

  lemma {:induction false} ExcessWitness(log: seq<Entry>, n: nat) returns (t: int)
    requires Excess(log, n) > 0
    ensures n <= t < |log| && MissedAt(log, t) == Excess(log, n)
  {
    t := |log| - 1;
    if MissedAt(log, t) < Excess(log, n) {
      t := ExcessWitness(log[..|log| - 1], n);
    }
  }

  /** A longer transcript misses at least as much. */
  lemma ExcessGrows(a: seq<Entry>, b: seq<Entry>, n: nat, m: nat)
    requires a <= b && n <= m
    ensures Excess(b, n) >= Excess(a, n) && Excess(b, n) >= Excess(b, m)
  {
    if Excess(a, n) > 0 {
      var t := ExcessWitness(a, n);
      ExcessMax(b, n, t);
    }
    if Excess(b, m) > 0 {
      var t := ExcessWitness(b, m);
      ExcessMax(b, n, t);
    }
  }

  /** No query from `n` on counts anything. */
  predicate NoCounts(log: seq<Entry>, n: nat) {
    forall t :: n <= t < |log| ==> log[t].kind != CountReady && log[t].kind != CountProvisioning
  }

  /** From query `n` on, every second count directly follows its first count, with only events in between. */
  predicate Paired(log: seq<Entry>, n: nat) {
    forall t :: n <= t < |log| && log[t].kind == CountProvisioning ==>
      n < t && log[t - 1].kind == CountReady && log[t].before == Seen(log[t - 1])
  }

  class Pool {
    var rows: Rows
    var tick: nat
    /** Events that land before the query of each tick, database failures, and provisioning outcomes. */
    const events: nat -> seq<Event>
    const fails: nat -> bool
    const outcome: nat -> Provision
    /** Every query so far, and how many members were claimed meanwhile. */
    ghost var log: seq<Entry>
    ghost var claims: nat

    ghost predicate Valid()
      reads this
    {
      |log| == tick && claims == ClaimTotal(log) && forall t :: 0 <= t < tick ==> log[t].es == events(t)
    }

    /** Nobody interferes and nothing fails. */
    ghost predicate Quiet(from: nat, to: nat) {
      forall i :: from <= i < to ==> events(i) == [] && !fails(i) && outcome(i) == Started
    }

    constructor (events: nat -> seq<Event>, fails: nat -> bool, outcome: nat -> Provision)
      ensures Valid() && rows == [] && tick == 0
      ensures this.events == events && this.fails == fails && this.outcome == outcome
    {
      rows, tick, log, claims := [], 0, [], 0;
      this.events, this.fails, this.outcome := events, fails, outcome;
    }

    /** Everything others do before the next query, and whether that query fails. */
    method Query(ghost kind: Kind) returns (ok: bool)
      requires Valid()
      modifies this
      ensures Valid() && tick == old(tick) + 1 && ok == !fails(old(tick)) && rows == old(First())
      ensures log == old(log) + [Entry(kind, old(rows), events(old(tick)))]
      ensures |rows| == |old(rows)| && claims >= old(claims) && Live(rows) <= Live(old(rows))
      ensures Count(rows, Ready) >= Count(old(rows), Ready) - (claims - old(claims))
      ensures forall i :: 0 <= i < |rows| && !Alive(old(rows)[i]) ==> rows[i] == old(rows)[i]
    {
      var es := events(tick);
      EventsMove(rows, es);
      claims, log := claims + Claims(rows, es), log + [Entry(kind, rows, es)];
      for i := 0 to |es|
        invariant tick == old(tick) && rows == AfterAll(old(rows), es[..i])
        invariant log == old(log) + [Entry(kind, old(rows), es)] && claims == old(claims) + Claims(old(rows), es)
      {
        assert es[..i + 1][..i] == es[..i];
        rows := After(rows, es[i]);
      }
      assert es[..|es|] == es && log[..|log| - 1] == old(log);
      ok := !fails(tick);
      tick := tick + 1;
    }

    /** The rows as the next query, and a query right after it, will see them. */
    ghost function First(): Rows
      reads this
    {
      AfterAll(rows, events(tick))
    }

    ghost function Second(): Rows
      reads this
    {
      AfterAll(First(), events(tick + 1))
    }

    /** An update or delete of one row, unless the query fails or the row is gone. */
    method SetStatus(id: nat, to: Status)
      requires Valid() && id < |rows| && (to == Destroying || to == Gone)
      modifies this
      ensures Valid() && tick == old(tick) + 1 && |rows| == |old(rows)| && claims >= old(claims)
      ensures log == old(log) + [Entry(if to == Gone then Delete(id) else Mark(id), old(rows), events(old(tick)))]
      ensures Live(rows) <= Live(old(rows))
      ensures var floor := Count(old(rows), Ready) - (claims - old(claims));
              Count(rows, Ready) >= if Alive(rows[id]) || !Alive(old(rows)[id]) then floor else floor - 1
      ensures rows == if fails(old(tick)) || old(First())[id] == Gone then old(First()) else old(First())[id := to]
    {
      var ok := Query(if to == Gone then Delete(id) else Mark(id));
      if ok && rows[id] != Gone {
        SetCounts(rows, id, to);
        rows := rows[id := to];
      }
    }

    /** destroy_member: mark, destroy the VM, delete the row; failures are logged and passed over. */
    method Destroy(id: nat)
      requires Valid() && id < |rows|
      modifies this
      ensures Valid() && tick == old(tick) + 2 && |rows| == |old(rows)| && claims >= old(claims)
      ensures old(log) <= log && NoCounts(log, old(tick))
      ensures Live(rows) <= Live(old(rows))
      ensures Count(rows, Ready) >= Count(old(rows), Ready) - (claims - old(claims)) - 1
      ensures Quiet(old(tick), tick) ==> rows == old(rows)[id := Gone]
    {
      Retire(id, Destroying);
      Retire(id, Gone);
    }

    /** What destroying needs to know of one such update. */
    method Retire(id: nat, to: Status)
      requires Valid() && id < |rows| && (to == Destroying || to == Gone)
      modifies this
      ensures Valid() && tick == old(tick) + 1 && |rows| == |old(rows)| && claims >= old(claims)
      ensures old(log) <= log && NoCounts(log, old(tick)) && Live(rows) <= Live(old(rows))
      ensures var floor := Count(old(rows), Ready) - (claims - old(claims));
              Count(rows, Ready) >= if Alive(rows[id]) || !Alive(old(rows)[id]) then floor else floor - 1
      ensures Quiet(old(tick), tick) ==> rows == if old(rows)[id] == Gone then old(rows) else old(rows)[id := to]
    {
      SetStatus(id, to);
    }

    /** Destroys the first `n` of the listed members. */
    method DestroyFirst(ids: seq<nat>, n: nat, ghost s: Status)
      requires Valid() && n <= |ids| && (forall k :: 0 <= k < |ids| ==> ids[k] < |rows|)
      requires forall j, k :: 0 <= j < k < |ids| ==> ids[j] < ids[k]
      modifies this
      ensures Valid() && old(log) <= log && NoCounts(log, old(tick))
      ensures tick >= old(tick) && |rows| == |old(rows)| && claims >= old(claims) && (n == 0 ==> rows == old(rows))
      ensures Live(rows) <= Live(old(rows))
      ensures Count(rows, Ready) >= Count(old(rows), Ready) - (claims - old(claims)) - n
      ensures Quiet(old(tick), tick) && (forall k :: 0 <= k < |ids| ==> old(rows)[ids[k]] == s) ==>
                Dropped(old(rows), rows, s, n)
      ensures Quiet(old(tick), tick) ==> WithGone(old(rows), rows, ids[..n])
    {
      ghost var uniform := forall k :: 0 <= k < |ids| ==> rows[ids[k]] == s;
      for k := 0 to n
        invariant Valid() && old(log) <= log && NoCounts(log, old(tick))
        invariant tick >= old(tick) && |rows| == |old(rows)| && claims >= old(claims) && (k == 0 ==> rows == old(rows))
        invariant Live(rows) <= Live(old(rows))
        invariant Count(rows, Ready) >= Count(old(rows), Ready) - (claims - old(claims)) - k
        invariant Quiet(old(tick), tick) && uniform ==> Dropped(old(rows), rows, s, k)
        invariant Quiet(old(tick), tick) ==> WithGone(old(rows), rows, ids[..k])
      {
        ghost var before := rows;
        Destroy(ids[k]);
        if Quiet(old(tick), tick) {
          GoneStep(old(rows), before, ids, k, s);
        }
      }
    }

    /** Destroys the oldest ready members beyond `want`. */
    method DestroySurplus(want: int)
      requires Valid()
      modifies this
      ensures Valid() && old(log) <= log && NoCounts(log, old(tick))
      ensures tick >= old(tick) && claims >= old(claims) && Live(rows) <= Live(old(rows))
      ensures Count(rows, Ready) >= Min(want, Count(old(rows), Ready)) - (claims - old(claims))
      ensures Quiet(old(tick), tick) ==>
                Dropped(old(rows), rows, Ready, Max(0, Count(old(rows), Ready) - Max(want, 0)))
      ensures Count(old(rows), Ready) <= want ==> rows == old(rows)
      ensures Quiet(old(tick), tick) ==> OldestGone(old(rows), rows, Ready, Count(old(rows), Ready) - Max(want, 0))
    {
      var ready := Listing(rows, Ready);
      var surplus := |ready| - want;
      ListedFirst(rows, Ready);
      if surplus > 0 {
        DestroyFirst(ready, Min(surplus, |ready|), Ready);
      }
    }

    /** Trims the pool: the oldest surplus ready members go, which never takes more than claims do below `want`. */
    method Trim(want: int) returns (ok: bool)
      requires Valid()
      modifies this
      ensures Valid() && old(log) <= log && NoCounts(log, old(tick))
      ensures tick > old(tick) && claims >= old(claims) && Live(rows) <= Live(old(rows))
      ensures Count(rows, Ready) >= Min(want, Count(old(rows), Ready)) - (claims - old(claims))
      ensures Quiet(old(tick), tick) ==>
                ok && Dropped(old(rows), rows, Ready, Max(0, Count(old(rows), Ready) - Max(want, 0)))
      ensures Quiet(old(tick), tick) && Count(old(rows), Ready) <= want ==> rows == old(rows)
      ensures Quiet(old(tick), tick) ==> OldestGone(old(rows), rows, Ready, Count(old(rows), Ready) - Max(want, 0))
    {
      ok := Query(ListReady);
      if ok {
        DestroySurplus(want);
      }
    }

    /** provision_pool_member, up to the watcher it leaves behind. */
    method ProvisionOne()
      requires Valid()
      modifies this
      ensures Valid() && tick == old(tick) + 1 && Live(rows) <= Live(old(rows)) + 1
      ensures log == old(log) + [Entry(Create, old(rows), events(old(tick)))]
      ensures rows == old(First()) + if fails(old(tick)) || outcome(old(tick)) == NoRow then []
                                     else [if outcome(old(tick)) == StartFailed(true) then Error else Provisioning]
    {
      var result := outcome(tick);
      var ok := Query(Create);
      if ok && result != NoRow {
        var status := if result == StartFailed(true) then Error else Provisioning;
        CountAppend(rows, status, Ready);
        CountAppend(rows, status, Provisioning);
        rows := rows + [status];
      }
    }

    /** What the loop needs to know of one such attempt. */
    method ProvisionNext()
      requires Valid()
      modifies this
      ensures Valid() && tick == old(tick) + 1 && Live(rows) <= Live(old(rows)) + 1
      ensures old(log) <= log && NoCounts(log, old(tick))
      ensures Quiet(old(tick), tick) ==> rows == old(rows) + [Provisioning]
    {
      ProvisionOne();
    }

    /** The loop that provisions what is missing. */
    method ProvisionAll(n: nat)
      requires Valid()
      modifies this
      ensures Valid() && tick >= old(tick) && Live(rows) <= Live(old(rows)) + n
      ensures old(log) <= log && NoCounts(log, old(tick))
      ensures Quiet(old(tick), tick) ==> rows == old(rows) + Fresh(n)
    {
      assert rows + Fresh(0) == rows;
      for k := 0 to n
        invariant Valid() && tick >= old(tick) && Live(rows) <= Live(old(rows)) + k
        invariant old(log) <= log && NoCounts(log, old(tick))
        invariant Quiet(old(tick), tick) ==> rows == old(rows) + Fresh(k)
      {
        ProvisionNext();
        assert old(rows) + Fresh(k) + [Provisioning] == old(rows) + Fresh(k + 1);
      }
    }

    /**
     * The refill: count the ready, then the provisioning members, and provision
     * what is missing. Members that turned ready between the two counts are in neither.
     */
    method Refill(want: int)
      requires Valid()
      modifies this
      ensures Valid() && tick > old(tick) && old(log) <= log
      ensures Counted(log, old(tick), old(rows), events(old(tick)), events(old(tick) + 1), fails(old(tick)))
      ensures fails(old(tick)) ==> Live(rows) <= Live(old(rows))
      ensures Live(rows) <= Max(Live(old(rows)), want + Uncounted(old(First()), old(Second())))
      ensures !fails(old(tick)) && !fails(old(tick) + 1) && Quiet(old(tick) + 2, tick) ==>
                rows == old(Second()) + Fresh(Deficit(old(First()), old(Second()), want))
      ensures Quiet(old(tick), tick) ==> rows == old(rows) + Fresh(Deficit(old(rows), old(rows), want))
    {
      var ok := Query(CountReady);
      if !ok {
        return;
      }
      var ready := Count(rows, Ready);
      ok := Query(CountProvisioning);
      if !ok {
        return;
      }
      ProvisionAll(Max(want - (ready + Count(rows, Provisioning)), 0));
    }

    method Clear() returns (ok: bool)
      requires Valid()
      modifies this
      ensures Valid() && old(log) <= log && NoCounts(log, old(tick))
      ensures tick > old(tick) && Live(rows) <= Live(old(rows))
      ensures Quiet(old(tick), tick) ==> ok && Dropped(old(rows), rows, Error, Count(old(rows), Error))
      ensures Quiet(old(tick), tick) && Count(old(rows), Error) == 0 ==> rows == old(rows)
      ensures Quiet(old(tick), tick) ==> OldestGone(old(rows), rows, Error, Count(old(rows), Error))
    {
      ok := Query(ListError);
      if ok {
        var failed := Listing(rows, Error);
        ListedFirst(rows, Error);
        DestroyFirst(failed, |failed|, Error);
      }
    }

    /** Failed members go, then surplus ready ones. */
    method Shrink(want: int) returns (ok: bool)
      requires Valid()
      modifies this
      ensures Valid() && old(log) <= log && NoCounts(log, old(tick))
      ensures tick > old(tick) && Live(rows) <= Live(old(rows))
      ensures Quiet(old(tick), tick) ==> ok && Shrunk(old(rows), rows, want)
      ensures Quiet(old(tick), tick) && Count(old(rows), Error) == 0 && Count(old(rows), Ready) <= want ==>
                rows == old(rows)
    {
      ok := Clear();
      if ok {
        ok := Trim(want);
      }
    }

    /** The refill as part of a sync that began at query `n` with `live` members and has counted nothing yet. */
    method RefillFrom(want: int, ghost n: nat, ghost live: nat)
      requires Valid() && n <= tick && NoCounts(log, n) && Live(rows) <= live
      modifies this
      ensures Valid() && tick > old(tick) && old(log) <= log && Paired(log, n) && Within(Live(rows), live, want, log, n)
      ensures Quiet(old(tick), tick) ==> rows == old(rows) + Fresh(Deficit(old(rows), old(rows), want))
    {
      Refill(want);
      RefillPaired(old(log), log, n, old(rows), events(old(tick)), events(old(tick) + 1), fails(old(tick)));
      if !fails(old(tick)) {
        RefillLogged(old(log), log, n, old(rows), events(old(tick)), events(old(tick) + 1));
      }
      RefillWithin(live, Live(old(rows)), Live(rows), want, log, n, old(rows), events(old(tick)), events(old(tick) + 1),
                   fails(old(tick)));
    }

    /** sync_pool: failed members go, then surplus ones, then the pool is refilled. */
    method Sync(want: int)
      requires Valid()
      modifies this
      ensures Valid() && tick > old(tick) && old(log) <= log && Paired(log, old(tick))
      ensures Within(Live(rows), Live(old(rows)), want, log, old(tick))
      ensures Quiet(old(tick), tick) ==> Balanced(old(rows), rows, want)
      ensures Quiet(old(tick), tick) && Count(old(rows), Error) == 0 && Count(old(rows), Ready) == want ==>
                rows == old(rows)
    {
      var ok := Shrink(want);
      if ok {
        ShrunkThenRefilled(old(rows), rows, want);
        RefillFrom(want, old(tick), Live(old(rows)));
      } else {
        NothingMissed(Live(rows), Live(old(rows)), want, log, old(tick));
      }
    }

    /**
     * Syncs one after the other, whatever happens in between: the live members
     * exceed the largest target by at most what some sync's two counts missed, and
     * so only if a member turned ready just before a second count.
     */
    method Syncs(wants: seq<int>, largest: int)
      requires Valid() && Live(rows) <= largest && forall i :: 0 <= i < |wants| ==> wants[i] <= largest
      modifies this
      ensures Valid() && old(log) <= log && Paired(log, old(tick))
      ensures Within(Live(rows), largest, largest, log, old(tick))
      ensures Live(rows) > largest ==> exists t: nat :: old(tick) <= t && IsSecondCount(log, t) && HasFlip(events(t))
    {
      NothingMissed(Live(rows), largest, largest, log, tick);
      for i := 0 to |wants|
        invariant Valid() && tick >= old(tick) && old(log) <= log && Paired(log, old(tick))
        invariant Within(Live(rows), largest, largest, log, old(tick))
      {
        ghost var before, live, at := log, Live(rows), tick;
        Sync(wants[i]);
        WithinTwice(live, Live(rows), wants[i], largest, before, log, old(tick), at);
      }
      if Live(rows) > largest {
        var t: nat := MissedBecauseOfFlip(log, old(tick), Live(rows), largest);
      }
    }

    /** Every provisioning member turns ready. */
    method AllSucceed()
      requires Valid()
      modifies this`rows
      ensures Valid() && |rows| == |old(rows)| && Count(rows, Ready) == Live(old(rows))
              && Count(rows, Provisioning) == 0
      ensures Count(rows, Error) == Count(old(rows), Error)
    {
      for i := 0 to |rows|
        invariant |rows| == |old(rows)| && Live(rows) == Live(old(rows))
                  && Count(rows, Error) == Count(old(rows), Error)
        invariant forall j :: 0 <= j < i ==> rows[j] != Provisioning
      {
        if rows[i] == Provisioning {
          SetCounts(rows, i, Ready);
          CountSet(rows, i, Ready, Error);
          rows := rows[i := Ready];
        }
      }
      NoneCounted(rows, Provisioning);
    }

    /**
     * Once every member that was provisioning succeeded, an undisturbed pool holds
     * exactly its target, however many syncs follow.
     */
    method Converge(want: nat, later: nat)
      requires Valid()
      modifies this
      ensures Valid() && tick >= old(tick)
      ensures Quiet(old(tick), tick) ==>
                Count(rows, Ready) == want && Count(rows, Provisioning) == 0 && Count(rows, Error) == 0
    {
      Sync(want);
      AllSucceed();
      Sync(want);
      for i := 0 to later
        invariant Valid() && tick >= old(tick)
        invariant Quiet(old(tick), tick) ==> Settled(rows, want)
      {
        Sync(want);
      }
    }
  }

  /** Two queries that straddle a member turning ready make a full pool overfull. */
  method RaceOverfills(p: Pool)
    requires p.Valid() && p.rows == [Provisioning] && p.events(p.tick) == [] && p.events(p.tick + 1) == [TurnsReady(0)]
    requires forall i ::
               (i >= p.tick ==> !p.fails(i)) && (i >= p.tick + 2 ==> p.events(i) == [] && p.outcome(i) == Started)
    modifies p
    ensures Live(old(p.rows)) == 1 && Live(p.rows) == 2
  {
    var es := [TurnsReady(0)];
    assert es[..0] == [] && AfterAll([Provisioning], es) == [Ready] by {
      assert AfterAll([Provisioning], []) == [Provisioning];
    }
    p.Refill(1);
    assert p.rows == [Ready] + Fresh(1);
    FreshCounts([Ready], 1);
    assert [Ready][..0] == [] && [Provisioning][..0] == [];
  }

  /** A refill's part of the transcript: its two counts, back to back, and then only creations. */
  ghost predicate Counted(log: seq<Entry>, n: nat, start: Rows, es: seq<Event>, es': seq<Event>, failed: bool) {
    && n < |log| && log[n] == Entry(CountReady, start, es)
    && if failed then |log| == n + 1
       else n + 1 < |log| && log[n + 1] == Entry(CountProvisioning, AfterAll(start, es), es') && NoCounts(log, n + 2)
  }

  lemma RefillPaired(before: seq<Entry>, log: seq<Entry>, n: nat, start: Rows, es: seq<Event>, es': seq<Event>,
                     failed: bool)
    requires before <= log && n <= |before| && NoCounts(before, n) && Counted(log, |before|, start, es, es', failed)
    ensures Paired(log, n)
  {
    assert !failed ==> log[|before| + 1].before == Seen(log[|before|]);
  }

  lemma RefillLogged(before: seq<Entry>, log: seq<Entry>, n: nat, start: Rows, es: seq<Event>, es': seq<Event>)
    requires before <= log && n <= |before| && Counted(log, |before|, start, es, es', false)
    ensures Excess(log, n) >= Uncounted(AfterAll(start, es), AfterAll(AfterAll(start, es), es'))
  {
    var t := |before| + 1;
    assert Seen(log[t - 1]) == AfterAll(start, es) && Seen(log[t]) == AfterAll(AfterAll(start, es), es');
    ExcessMax(log, n, t);
  }

  /** The bound on a sync: the old number of live members, or the target and what the two counts of a refill missed. */
  ghost predicate Within(live: int, before: int, want: int, log: seq<Entry>, n: nat) {
    live <= Max(before, want + Excess(log, n))
  }

  lemma NothingMissed(live: int, before: int, want: int, log: seq<Entry>, n: nat)
    requires live <= before
    ensures Within(live, before, want, log, n)
  {
  }

  lemma RefillWithin(before: int, mid: int, live: int, want: int, log: seq<Entry>, n: nat, start: Rows, es: seq<Event>,
                     es': seq<Event>,
                     failed: bool)
    requires mid <= before && (failed ==> live <= mid)
    requires live <= Max(mid, want + Uncounted(AfterAll(start, es), AfterAll(AfterAll(start, es), es')))
    requires !failed ==> Excess(log, n) >= Uncounted(AfterAll(start, es), AfterAll(AfterAll(start, es), es'))
    ensures Within(live, before, want, log, n)
  {
  }

  lemma WithinTwice(mid: int, live: int, want: int, largest: int, before: seq<Entry>, log: seq<Entry>, n: nat, at: nat)
    requires before <= log && n <= at && want <= largest
    requires Within(mid, largest, largest, before, n) && Within(live, mid, want, log, at)
    ensures Within(live, largest, largest, log, n)
  {
    ExcessGrows(before, log, n, at);
  }

  lemma MissedBecauseOfFlip(log: seq<Entry>, n: nat, live: int, largest: int) returns (t: nat)
    requires Paired(log, n) && Within(live, largest, largest, log, n) && live > largest
    ensures n <= t && IsSecondCount(log, t) && HasFlip(log[t].es)
  {
    t := ExcessWitness(log, n);
    OnlyFlipsAdd(log[t].before, log[t].es);
  }

  ghost predicate HasFlip(es: seq<Event>) {
    exists e :: e in es && e.TurnsReady?
  }

  lemma {:induction false} OnlyFlipsAdd(rows: Rows, es: seq<Event>)
    ensures Count(AfterAll(rows, es), Ready) > Count(rows, Ready) ==> HasFlip(es)
    decreases |es|
  {
    if es != [] {
      var front, last := es[..|es| - 1], es[|es| - 1];
      OnlyFlipsAdd(rows, front);
      assert last in es;
      var mid := AfterAll(rows, front);
      if last.id < |mid| {
        CountSet(mid, last.id, if last.TurnsReady? then Ready else if last.TurnsError? then Error else Gone, Ready);
      }
    }
  }

  /** `n` members that just started provisioning. */
  function Fresh(n: nat): Rows {
    seq(n, i => Provisioning)
  }

  /** Ready members that the first count could not see and the second no longer looks for. */
  function Uncounted(first: Rows, second: Rows): int {
    Count(second, Ready) - Count(first, Ready)
  }

  function Deficit(first: Rows, second: Rows, want: int): nat {
    Max(0, want - Count(first, Ready) - Count(second, Provisioning))
  }

  lemma {:induction false} FreshCounts(rows: Rows, n: nat)
    ensures forall s :: Count(rows + Fresh(n), s) == Count(rows, s) + if s == Provisioning then n else 0
  {
    if n == 0 {
      assert rows + Fresh(0) == rows;
    } else {
      assert (rows + Fresh(n))[..|rows| + n - 1] == rows + Fresh(n - 1);
      FreshCounts(rows, n - 1);
    }
  }

  /**
   * A refill that provisions at all ends above the target exactly when more members
   * turned ready than were claimed between its counts.
   */
  lemma OverfullIff(first: Rows, second: Rows, want: int)
    requires Deficit(first, second, want) > 0
    ensures Live(second + Fresh(Deficit(first, second, want))) == want + Uncounted(first, second)
    ensures Live(second + Fresh(Deficit(first, second, want))) > want <==> Count(second, Ready) > Count(first, Ready)
  {
    FreshCounts(second, Deficit(first, second, want));
  }

  /** What an undisturbed sync leaves: at most `want` ready, and as many provisioning as are needed to reach it. */
  ghost predicate Balanced(before: Rows, after: Rows, want: int) {
    var ready := Min(Count(before, Ready), Max(want, 0));
    && Count(after, Error) == 0 && Count(after, Ready) == ready
    && Count(after, Provisioning) == Count(before, Provisioning) + Max(0, want - ready - Count(before, Provisioning))
  }

  /** Exactly the target is ready and nothing is under way or broken. */
  predicate Settled(rows: Rows, want: int) {
    Count(rows, Ready) == want && Count(rows, Provisioning) == 0 && Count(rows, Error) == 0
  }

  ghost predicate Shrunk(before: Rows, after: Rows, want: int) {
    && Count(after, Error) == 0 && Count(after, Ready) == Min(Count(before, Ready), Max(want, 0))
    && Count(after, Provisioning) == Count(before, Provisioning)
  }

  lemma ShrunkThenRefilled(before: Rows, rows: Rows, want: int)
    ensures var after := rows + Fresh(Deficit(rows, rows, want));
            && (Shrunk(before, rows, want) ==> Balanced(before, after, want))
            && (Count(rows, Ready) == want ==> after == rows)
  {
    FreshCounts(rows, Deficit(rows, rows, want));
  }

  lemma {:induction false} NoneCounted(rows: Rows, s: Status)
    requires forall i :: 0 <= i < |rows| ==> rows[i] != s
    ensures Count(rows, s) == 0
  {
    if rows != [] {
      NoneCounted(rows[..|rows| - 1], s);
    }
  }

  /** Exactly the rows named are gone. */
  ghost predicate WithGone(before: Rows, after: Rows, ids: seq<nat>) {
    |after| == |before| && forall i :: 0 <= i < |before| ==> after[i] == if i in ids then Gone else before[i]
  }

  /** Of the rows with status `s` exactly those with fewer than `n` older ones are gone, and no other row changed. */
  ghost predicate OldestGone(before: Rows, after: Rows, s: Status, n: int) {
    && |after| == |before|
    && forall i :: 0 <= i < |before| ==>
         after[i] == if before[i] == s && Count(before[..i], s) < n then Gone else before[i]
  }

  /** A listing has every row with the status, in creation order: the k-th has `k` older ones. */
  lemma {:induction false} ListingComplete(rows: Rows, s: Status, i: nat)
    requires i < |rows|
    ensures rows[i] == s <==> i in Listing(rows, s)
    ensures rows[i] == s ==> Count(rows[..i], s) < |Listing(rows, s)| && Listing(rows, s)[Count(rows[..i], s)] == i
  {
    var front, last := rows[..|rows| - 1], |rows| - 1;
    if i < last {
      ListingComplete(front, s, i);
      assert front[..i] == rows[..i];
    } else {
      assert rows[..i] == front;
    }
  }

  /** The first `n` of a listing are the rows with fewer than `n` older ones of the same status. */
  lemma ListedFirst(rows: Rows, s: Status)
    ensures forall n, i :: 0 <= n <= |Listing(rows, s)| && 0 <= i < |rows| ==>
              (i in Listing(rows, s)[..n] <==> rows[i] == s && Count(rows[..i], s) < n)
  {
    var ids := Listing(rows, s);
    forall n, i | 0 <= n <= |ids| && 0 <= i < |rows|
      ensures i in ids[..n] <==> rows[i] == s && Count(rows[..i], s) < n
    {
      ListingComplete(rows, s, i);
      if rows[i] == s && Count(rows[..i], s) < n {
        assert ids[..n][Count(rows[..i], s)] == i;
      }
      if i in ids[..n] {
        var k :| 0 <= k < n && ids[..n][k] == i;
        assert ids[k] == i;
      }
    }
  }

  /** `n` rows with status `s` were dropped and nothing else was counted differently. */
  ghost predicate Dropped(before: Rows, after: Rows, s: Status, n: int) {
    forall t :: t != Gone ==> Count(after, t) == Count(before, t) - if t == s then n else 0
  }

  lemma DropOne(rows: Rows, i: nat)
    requires i < |rows|
    ensures forall t :: t != Gone ==> Count(rows[i := Gone], t) == Count(rows, t) - if t == rows[i] then 1 else 0
  {
    forall t | t != Gone ensures Count(rows[i := Gone], t) == Count(rows, t) - if t == rows[i] then 1 else 0 {
      CountSet(rows, i, Gone, t);
    }
  }

  lemma GoneStep(before: Rows, now: Rows, ids: seq<nat>, k: nat, s: Status)
    requires k < |ids| && (forall j :: 0 <= j < |ids| ==> ids[j] < |before|)
    requires forall i, j :: 0 <= i < j < |ids| ==> ids[i] < ids[j]
    requires WithGone(before, now, ids[..k])
    ensures WithGone(before, now[ids[k] := Gone], ids[..k + 1])
    ensures before[ids[k]] == s && Dropped(before, now, s, k) ==> Dropped(before, now[ids[k] := Gone], s, k + 1)
  {
    assert ids[..k + 1] == ids[..k] + [ids[k]] && ids[k] !in ids[..k];
    DropOne(now, ids[k]);
  }
}
