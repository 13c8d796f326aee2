/**
 * When the high-availability monitor acts: the grace period before a host is
 * failed over and the cooldown between attempts on one VM
 * (qarax/src/ha_monitor.rs, run_cycle and failover_host).
 */
module HaTiming {
  import opened Common

  type Host = nat
  type Vm = nat

  /** One host of the down list with its probe result and, if listing them works, its failover candidates. */
  datatype Probe = Probe(host: Host, reachable: bool, candidates: Option<seq<Vm>>)

  /** One tick of the monitor's timer; None is a failed listing of the down hosts. */
  datatype Tick = Maintenance | Run(down: Option<seq<Probe>>)

  /* ---- history ---- */

  datatype Sighting = Sighting(host: Host, reachable: bool, at: int)

  /** What one cycle observed; listing the down hosts may fail. */
  datatype Cycle = ListFailed | Listed(seen: seq<Sighting>)

  /** A host handed to failover_host, with every observation up to that moment. */
  datatype Failover = Failover(host: Host, at: int, history: seq<Cycle>)

  datatype Attempt = Attempt(vm: Vm, at: int)

  /** The clock readings one cycle took: those with an index from `from` on, up to but not including `to`. */
  datatype Span = Span(from: nat, to: nat)

  /** The cycle listed `h` as down and its probe failed. */
  predicate FailedProbe(c: Cycle, h: Host) {
    && c.Listed? && (exists s :: s in c.seen && s.host == h)
    && forall s :: s in c.seen && s.host == h ==> !s.reachable
  }

  /** `h` failed its probe in cycle `i` and in every later cycle that got the host list. */
  predicate DownFrom(history: seq<Cycle>, h: Host, i: nat) {
    && i < |history| && FailedProbe(history[i], h)
    && forall j :: i < j < |history| && history[j].Listed? ==> FailedProbe(history[j], h)
  }

  predicate SightedAt(c: Cycle, h: Host, t: int) {
    c.Listed? && exists s :: s in c.seen && s.host == h && s.at == t
  }

  /** Down without interruption since a failed probe at time `t`. */
  ghost predicate DownSince(history: seq<Cycle>, h: Host, t: int) {
    exists i: nat :: DownFrom(history, h, i) && SightedAt(history[i], h, t)
  }

  ghost predicate AllDown(history: seq<Cycle>, marks: map<Host, int>) {
    forall h :: h in marks ==> DownSince(history, h, marks[h])
  }

  ghost predicate Justified(f: Failover, grace: nat) {
    exists t :: DownSince(f.history, f.host, t) && f.at - t >= grace
  }

  predicate Spaced(attempts: seq<Attempt>, cooldown: nat) {
    forall i, j :: 0 <= i < j < |attempts| && attempts[i].vm == attempts[j].vm ==>
        attempts[j].at - attempts[i].at >= cooldown
  }

  lemma DownSinceExtends(history: seq<Cycle>, c: Cycle, h: Host, t: int)
    requires DownSince(history, h, t) && (c.Listed? ==> FailedProbe(c, h))
    ensures DownSince(history + [c], h, t)
  {
    var i: nat :| DownFrom(history, h, i) && SightedAt(history[i], h, t);
    assert (history + [c])[i] == history[i];
    assert DownFrom(history + [c], h, i);
  }

  lemma DownSinceStarts(history: seq<Cycle>, c: Cycle, h: Host, t: int)
    requires FailedProbe(c, h) && SightedAt(c, h, t)
    ensures DownSince(history + [c], h, t)
  {
    assert DownFrom(history + [c], h, |history|);
  }

  /** Another host's sighting in the current cycle changes nothing for `h`. */
  lemma DownSinceIgnores(history: seq<Cycle>, seen: seq<Sighting>, other: Sighting, h: Host, t: int)
    requires DownSince(history + [Listed(seen)], h, t) && other.host != h
    ensures DownSince(history + [Listed(seen + [other])], h, t)
  {
    var c, c' := Listed(seen), Listed(seen + [other]);
    var i: nat :| DownFrom(history + [c], h, i) && SightedAt((history + [c])[i], h, t);
    assert forall s :: s in seen ==> s in c'.seen;
    assert FailedProbe((history + [c])[|history|], h);
    assert forall j :: 0 <= j < |history| ==> (history + [c'])[j] == (history + [c])[j];
    assert DownFrom(history + [c'], h, i);
  }

  /* ---- what the log says about the run ---- */

  /** The listings a sequence of ticks leads to. */
  function Listings(ticks: seq<Tick>): seq<Option<seq<Probe>>> {
    if ticks == [] then []
    else
      var last := ticks[|ticks| - 1];
      Listings(ticks[..|ticks| - 1]) + (if last.Run? then [last.down] else [])
  }

  function IsRun(): Tick -> bool {
    (t: Tick) => t.Run?
  }

  /** Those are, in order, the listings of the ticks outside maintenance. */
  lemma {:induction false} ListingsMean(ticks: seq<Tick>)
    ensures var runs := Filter(ticks, IsRun());
            && |Listings(ticks)| == |runs|
            && forall i :: 0 <= i < |runs| ==> runs[i].Run? && Listings(ticks)[i] == runs[i].down
  {
    if ticks != [] {
      ListingsMean(ticks[..|ticks| - 1]);
    }
  }

  /** The cycle in the log shows exactly the probes that were made. */
  predicate Reports(c: Cycle, probes: seq<Probe>) {
    && c.Listed? && |c.seen| == |probes|
    && forall i :: 0 <= i < |probes| ==> c.seen[i].host == probes[i].host && c.seen[i].reachable == probes[i].reachable
  }

  predicate Shows(c: Cycle, down: Option<seq<Probe>>) {
    match down
    case None => c == ListFailed
    case Some(probes) => Reports(c, probes)
  }

  /** The log is cycle by cycle what the listings and probes showed. */
  ghost predicate Records(history: seq<Cycle>, downs: seq<Option<seq<Probe>>>) {
    |history| == |downs| && forall n :: 0 <= n < |downs| ==> Shows(history[n], downs[n])
  }

  /** `t` is one of the clock readings taken between two counts of readings. */
  ghost predicate Reading(clock: nat -> int, t: int, lo: nat, hi: nat) {
    exists i: nat :: lo <= i < hi && t == clock(i)
  }

  ghost predicate Stamped(clock: nat -> int, seen: seq<Sighting>, lo: nat, hi: nat) {
    forall s :: s in seen ==> Reading(clock, s.at, lo, hi)
  }

  ghost predicate StampedCycle(clock: nat -> int, c: Cycle, span: Span) {
    span.from <= span.to && (c.Listed? ==> Stamped(clock, c.seen, span.from, span.to))
  }

  /** Each cycle has its own clock readings, one cycle's after those of the one before. */
  ghost predicate Timed(clock: nat -> int, history: seq<Cycle>, spans: seq<Span>, now: nat) {
    && |spans| == |history|
    && (forall n :: 0 <= n < |history| ==> StampedCycle(clock, history[n], spans[n]) && spans[n].to <= now)
    && (forall m, n :: 0 <= m < n < |spans| ==> spans[m].to <= spans[n].from)
  }

  lemma TimedMore(clock: nat -> int, history: seq<Cycle>, spans: seq<Span>, c: Cycle, span: Span, from: nat, now: nat)
    requires Timed(clock, history, spans, from) && StampedCycle(clock, c, span) && from <= span.from && span.to <= now
    ensures Timed(clock, history + [c], spans + [span], now)
  {
  }

  /** The failover saw the log up to and including the k-th sighting of cycle `n`, which is its own host's. */
  predicate SawUpTo(f: Failover, history: seq<Cycle>, n: nat, k: nat) {
    && n < |history| && history[n].Listed? && k < |history[n].seen|
    && f.history == history[..n] + [Listed(history[n].seen[..k + 1])]
    && f.host == history[n].seen[k].host && !history[n].seen[k].reachable
  }

  /** The failover saw the log up to cycle `n`'s sighting of its own host. */
  ghost predicate SawCycle(f: Failover, history: seq<Cycle>, n: nat) {
    exists k: nat :: SawUpTo(f, history, n, k)
  }

  /** The failover was made in cycle `n`: it saw the log up to there, at a clock reading of that cycle. */
  ghost predicate MadeIn(clock: nat -> int, f: Failover, history: seq<Cycle>, spans: seq<Span>, n: nat) {
    n < |spans| && Reading(clock, f.at, spans[n].from, spans[n].to) && SawCycle(f, history, n)
  }

  ghost predicate Genuine(clock: nat -> int, f: Failover, history: seq<Cycle>, spans: seq<Span>) {
    exists n: nat :: MadeIn(clock, f, history, spans, n)
  }

  ghost predicate AllGenuine(clock: nat -> int, failovers: seq<Failover>, history: seq<Cycle>, spans: seq<Span>) {
    forall f :: f in failovers ==> Genuine(clock, f, history, spans)
  }

  lemma GenuineExtends(clock: nat -> int, failovers: seq<Failover>, history: seq<Cycle>, spans: seq<Span>, c: Cycle,
                       span: Span)
    requires AllGenuine(clock, failovers, history, spans)
    ensures AllGenuine(clock, failovers, history + [c], spans + [span])
  {
    forall f | f in failovers ensures Genuine(clock, f, history + [c], spans + [span]) {
      var n: nat :| MadeIn(clock, f, history, spans, n);
      var k: nat :| SawUpTo(f, history, n, k);
      assert (history + [c])[..n] == history[..n];
      assert SawUpTo(f, history + [c], n, k);
      assert MadeIn(clock, f, history + [c], spans + [span], n);
    }
  }

  predicate Unreachable(down: Option<seq<Probe>>, h: Host) {
    down.Some? && exists p :: p in down.value && p.host == h && !p.reachable
  }

  /** Every listing from `m` to `n` that worked named `h` as down, and its probe failed. */
  predicate DownThrough(downs: seq<Option<seq<Probe>>>, h: Host, m: nat, n: nat) {
    && m <= n < |downs| && Unreachable(downs[m], h) && Unreachable(downs[n], h)
    && forall j :: m <= j <= n && downs[j].Some? ==> Unreachable(downs[j], h)
  }

  /**
   * The failover was earned: the host failed its probes from some cycle `m` on through
   * the cycle `n` in which the failover was made, and cycle `m` probed it at least the
   * grace period earlier.
   */
  ghost predicate Earned(clock: nat -> int, f: Failover, history: seq<Cycle>, spans: seq<Span>,
                         downs: seq<Option<seq<Probe>>>, grace: nat) {
    exists m: nat, n: nat, t: int ::
        MadeIn(clock, f, history, spans, n) && DownThrough(downs, f.host, m, n) && m < |history|
          && SightedAt(history[m], f.host, t) && f.at - t >= grace
  }

  lemma FailedProbeShown(c: Cycle, seen: seq<Sighting>, down: Option<seq<Probe>>, h: Host)
    requires FailedProbe(Listed(seen), h) && c.Listed? && seen <= c.seen && Shows(c, down)
    ensures Unreachable(down, h)
  {
    var s :| s in seen && s.host == h;
    var k :| 0 <= k < |seen| && seen[k] == s;
    assert c.seen[k] == s && down.value[k] in down.value;
  }

  lemma PrefixCycle(f: Failover, history: seq<Cycle>, n: nat, k: nat, j: nat)
    requires SawUpTo(f, history, n, k) && j <= n
    ensures j < |f.history| == n + 1 && (f.history[j].Listed? <==> history[j].Listed?)
    ensures history[j].Listed? ==> f.history[j].seen <= history[j].seen
  {
    if j < n {
      assert f.history[j] == history[j];
    }
  }

  lemma DownInTick(f: Failover, history: seq<Cycle>, downs: seq<Option<seq<Probe>>>, n: nat, k: nat, m: nat, j: nat)
    requires Records(history, downs) && SawUpTo(f, history, n, k) && DownFrom(f.history, f.host, m) && m <= j <= n
             && downs[j].Some?
    ensures Unreachable(downs[j], f.host)
  {
    PrefixCycle(f, history, n, k, j);
    assert Shows(history[j], downs[j]);
    assert FailedProbe(f.history[j], f.host);
    FailedProbeShown(history[j], f.history[j].seen, downs[j], f.host);
  }

  /** A justified failover whose log is genuine was earned by what the ticks showed. */
  lemma EarnedByTicks(clock: nat -> int, f: Failover, history: seq<Cycle>, spans: seq<Span>,
                      downs: seq<Option<seq<Probe>>>, grace: nat)
    requires Records(history, downs) && Genuine(clock, f, history, spans) && Justified(f, grace)
    ensures Earned(clock, f, history, spans, downs, grace)
  {
    var n: nat :| MadeIn(clock, f, history, spans, n);
    var k: nat :| SawUpTo(f, history, n, k);
    var t :| DownSince(f.history, f.host, t) && f.at - t >= grace;
    var m: nat :| DownFrom(f.history, f.host, m) && SightedAt(f.history[m], f.host, t);
    PrefixCycle(f, history, n, k, m);
    PrefixCycle(f, history, n, k, n);
    assert Shows(history[m], downs[m]) && Shows(history[n], downs[n]);
    forall j | m <= j <= n && downs[j].Some? ensures Unreachable(downs[j], f.host) {
      DownInTick(f, history, downs, n, k, m, j);
    }
    assert DownThrough(downs, f.host, m, n);
    assert SightedAt(history[m], f.host, t);
  }

  ghost predicate AllEarned(clock: nat -> int, failovers: seq<Failover>, history: seq<Cycle>, spans: seq<Span>,
                            downs: seq<Option<seq<Probe>>>, grace: nat) {
    forall f :: f in failovers ==> Earned(clock, f, history, spans, downs, grace)
  }

  lemma EarnedInRun(clock: nat -> int, failovers: seq<Failover>, history: seq<Cycle>, spans: seq<Span>,
                    downs: seq<Option<seq<Probe>>>, grace: nat)
    requires Records(history, downs) && AllGenuine(clock, failovers, history, spans)
    requires forall f :: f in failovers ==> Justified(f, grace)
    ensures AllEarned(clock, failovers, history, spans, downs, grace)
  {
    forall f | f in failovers ensures Earned(clock, f, history, spans, downs, grace) {
      EarnedByTicks(clock, f, history, spans, downs, grace);
    }
  }

  /**
   * A cycle in which the host answered, or was no longer listed, restarts its grace period:
   * an earned failover comes at least that long after every clock reading up to that cycle.
   */
  lemma AnswerRestartsGrace(clock: nat -> int, f: Failover, history: seq<Cycle>, spans: seq<Span>,
                            downs: seq<Option<seq<Probe>>>, grace: nat, now: nat, j: nat, i: nat)
    requires Earned(clock, f, history, spans, downs, grace) && Timed(clock, history, spans, now) && Monotone(clock)
    requires j < |f.history| && j < |downs| && downs[j].Some?
    requires forall p :: p in downs[j].value && p.host == f.host ==> p.reachable
    requires j < |spans| && i < spans[j].to
    ensures f.at - clock(i) >= grace
  {
    var m: nat, n: nat, t: int :| MadeIn(clock, f, history, spans, n) && DownThrough(downs, f.host, m, n)
      && m < |history| && SightedAt(history[m], f.host, t) && f.at - t >= grace;
    var k: nat :| SawUpTo(f, history, n, k);
    assert |f.history| == n + 1 && j < m;
    assert StampedCycle(clock, history[m], spans[m]) && Reading(clock, t, spans[m].from, spans[m].to);
    var x: nat :| spans[m].from <= x < spans[m].to && t == clock(x);
    assert clock(i) <= clock(x);
  }

  /** The cycles from the b-th on took their clock readings from the lo-th on. */
  ghost predicate Since(spans: seq<Span>, b: nat, lo: nat) {
    forall n :: b <= n < |spans| ==> spans[n].from >= lo
  }

  ghost predicate Monotone(clock: nat -> int) {
    forall i: nat, j: nat :: i <= j ==> clock(i) <= clock(j)
  }

  class Monitor {
    var unreachableSince: map<Host, int>
    var lastAttempt: map<Vm, int>
    const grace: nat
    const cooldown: nat
    /** Successive readings of the monotonic clock. */
    const clock: nat -> int
    var tick: nat

    /** Every listing so far, what the cycles observed and when, and what was done. */
    ghost var downs: seq<Option<seq<Probe>>>
    ghost var history: seq<Cycle>
    ghost var spans: seq<Span>
    ghost var failovers: seq<Failover>
    ghost var attempts: seq<Attempt>

    /** What has been done so far was done for a reason and not too often. */
    ghost predicate Accountable()
      reads this
    {
      && Monotone(clock)
      && (forall f :: f in failovers ==> Justified(f, grace))
      && Spaced(attempts, cooldown)
      && (forall a :: a in attempts ==> a.vm in lastAttempt && a.at <= lastAttempt[a.vm])
      && (forall v :: v in lastAttempt ==> lastAttempt[v] <= clock(tick))
    }

    ghost predicate Valid()
      reads this
    {
      && Accountable() && AllDown(history, unreachableSince) && Records(history, downs)
      && Timed(clock, history, spans, tick) && AllGenuine(clock, failovers, history, spans)
    }

    constructor (grace: nat, cooldown: nat, clock: nat -> int)
      requires Monotone(clock)
      ensures Valid() && downs == [] && history == [] && spans == [] && failovers == [] && attempts == []
              && tick == 0
      ensures this.grace == grace && this.cooldown == cooldown && this.clock == clock
    {
      unreachableSince, lastAttempt, tick := map[], map[], 0;
      this.grace, this.cooldown, this.clock := grace, cooldown, clock;
      downs, history, spans, failovers, attempts := [], [], [], [], [];
    }

    /** Instant::now(). */
    method Now() returns (t: int)
      requires Accountable()
      modifies this`tick
      ensures Accountable() && clock(old(tick)) == t <= clock(tick) && tick == old(tick) + 1
    {
      t := clock(tick);
      tick := tick + 1;
    }

    /** failover_host: every candidate is attempted unless its last attempt is too recent. */
    method FailoverHost(candidates: Option<seq<Vm>>)
      requires Accountable()
      modifies this`lastAttempt, this`tick, this`attempts
      ensures Accountable() && tick >= old(tick) && old(attempts) <= attempts
              && (candidates.None? ==> attempts == old(attempts))
      ensures forall a :: a in attempts[|old(attempts)|..] ==> candidates.Some? && a.vm in candidates.value
      ensures Clocked(clock, attempts[|old(attempts)|..], old(tick), tick)
      ensures candidates.Some? ==>
                forall vm :: vm in candidates.value
                             && (vm in old(lastAttempt) ==> clock(old(tick)) - old(lastAttempt)[vm] >= cooldown)
                             ==> Attempted(attempts[|old(attempts)|..], vm)
    {
      if candidates.None? {
        return;
      }
      for i := 0 to |candidates.value|
        invariant Accountable() && old(attempts) <= attempts && tick >= old(tick)
        invariant forall a :: a in attempts[|old(attempts)|..] ==> a.vm in candidates.value
        invariant Clocked(clock, attempts[|old(attempts)|..], old(tick), tick)
        invariant forall vm ::
                    Attempted(attempts[|old(attempts)|..], vm) || SameEntry(old(lastAttempt), lastAttempt, vm)
        invariant forall vm :: vm in candidates.value[..i] && Due(old(lastAttempt), vm, clock(old(tick)), cooldown)
                    ==> Attempted(attempts[|old(attempts)|..], vm)
      {
        ghost var before, from := attempts, tick;
        TryVm(candidates.value[i]);
        if attempts != before {
          AttemptedMore(before, |old(attempts)|, attempts[|before|]);
          assert Reading(clock, clock(from + 1), old(tick), tick);
        }
        ClockedLonger(clock, before[|old(attempts)|..], old(tick), from, old(tick), tick);
        assert clock(old(tick)) <= clock(tick);
      }
    }

    /** One candidate of failover_host: skipped exactly while its cooldown runs. */
    method TryVm(vm: Vm)
      requires Accountable()
      modifies this`lastAttempt, this`tick, this`attempts
      ensures Accountable() && tick > old(tick)
      ensures if vm in old(lastAttempt) ==> clock(old(tick)) - old(lastAttempt)[vm] >= cooldown
              then tick == old(tick) + 2 && attempts == old(attempts) + [Attempt(vm, clock(old(tick) + 1))]
                   && lastAttempt == old(lastAttempt)[vm := clock(old(tick) + 1)]
              else attempts == old(attempts) && lastAttempt == old(lastAttempt)
    {
      var checked := Now();
      if vm in lastAttempt && checked - lastAttempt[vm] < cooldown {
        return;
      }
      var now := Now();
      assert clock(old(tick)) <= checked <= now <= clock(tick);
      attempts := attempts + [Attempt(vm, now)];
      lastAttempt := lastAttempt[vm := now];
    }

    ghost method Note(f: Failover)
      requires Accountable() && Justified(f, grace)
      modifies this`failovers
      ensures Accountable() && failovers == old(failovers) + [f]
    {
      failovers := failovers + [f];
    }

    /** The first half of an iteration of run_cycle's loop: probe, then forget the host or keep its mark. */
    method Probed(probe: Probe, ghost seen: seq<Sighting>, ghost rest: seq<Probe>) returns (ghost s: Sighting)
      requires Accountable() && AllMarked(history, unreachableSince, seen, [probe] + rest)
      requires !SeenIn(seen, probe.host) && !AheadIn(rest, probe.host)
      modifies this`unreachableSince, this`tick
      ensures Accountable() && AllMarked(history, unreachableSince, seen + [s], rest)
      ensures s == Sighting(probe.host, probe.reachable, clock(old(tick))) && tick == old(tick) + 1
      ensures unreachableSince == NextMarks(old(unreachableSince), probe, clock(old(tick)))
    {
      var h := probe.host;
      var found := Now();
      s := Sighting(h, probe.reachable, found);
      if probe.reachable {
        unreachableSince := unreachableSince - {h};
      } else if h !in unreachableSince {
        unreachableSince := unreachableSince[h := found];
      }
      MarkedStep(history, old(unreachableSince), unreachableSince, seen, s, probe, rest);
    }

    /** The second half, for a host that did not answer: its VMs are failed over exactly when its mark is old enough. */
    method Judge(probe: Probe, ghost seen: seq<Sighting>, ghost s: Sighting, ghost rest: seq<Probe>)
      requires Accountable() && probe.host in unreachableSince && s.host == probe.host && !probe.reachable
      requires MarkOk(history, seen + [s], rest, probe.host, unreachableSince[probe.host])
      modifies this`lastAttempt, this`tick, this`failovers, this`attempts
      ensures Accountable() && tick > old(tick) && old(attempts) <= attempts
      ensures failovers == old(failovers) +
              if clock(old(tick)) - unreachableSince[probe.host] < grace then []
              else [Failover(probe.host, clock(old(tick)), history + [Listed(seen + [s])])]
      ensures failovers == old(failovers) ==> attempts == old(attempts)
      ensures AttemptsFrom(attempts[|old(attempts)|..], [probe])
              && Clocked(clock, attempts[|old(attempts)|..], old(tick), tick)
    {
      var judged := Now();
      if judged - unreachableSince[probe.host] < grace {
        return;
      }
      ghost var f := Failover(probe.host, judged, history + [Listed(seen + [s])]);
      MarkJustifies(f, grace, unreachableSince[probe.host], seen, s, rest);
      Note(f);
      FailoverHost(probe.candidates);
      ClockedLonger(clock, attempts[|old(attempts)|..], old(tick) + 1, tick, old(tick), tick);
      OneProbe(attempts[|old(attempts)|..], probe);
    }

    /** One iteration: an unreachable host is failed over exactly when its mark is at least the grace period old. */
    method Visit(probe: Probe, ghost seen: seq<Sighting>, ghost rest: seq<Probe>) returns (ghost s: Sighting)
      requires Accountable() && AllMarked(history, unreachableSince, seen, [probe] + rest)
      requires !SeenIn(seen, probe.host) && !AheadIn(rest, probe.host)
      modifies this`unreachableSince, this`lastAttempt, this`tick, this`failovers, this`attempts
      ensures Accountable() && AllMarked(history, unreachableSince, seen + [s], rest) && tick > old(tick)
      ensures s == Sighting(probe.host, probe.reachable, clock(old(tick))) && old(attempts) <= attempts
      ensures unreachableSince == NextMarks(old(unreachableSince), probe, clock(old(tick)))
      ensures failovers == old(failovers) +
              if probe.reachable || clock(old(tick) + 1) - unreachableSince[probe.host] < grace then []
              else [Failover(probe.host, clock(old(tick) + 1), history + [Listed(seen + [s])])]
      ensures failovers == old(failovers) ==> attempts == old(attempts)
      ensures failovers != old(failovers) ==> tick >= old(tick) + 2
      ensures AttemptsFrom(attempts[|old(attempts)|..], [probe])
              && Clocked(clock, attempts[|old(attempts)|..], old(tick), tick)
    {
      s := Probed(probe, seen, rest);
      if !probe.reachable {
        Judge(probe, seen, s, rest);
        ClockedLonger(clock, attempts[|old(attempts)|..], old(tick) + 1, tick, old(tick), tick);
      }
    }

    ghost method Enter(c: Cycle, span: Span, down: Option<seq<Probe>>)
      requires Accountable() && AllDown(history + [c], unreachableSince) && Records(history, downs) && Shows(c, down)
      requires Timed(clock, history + [c], spans + [span], tick)
               && AllGenuine(clock, failovers, history + [c], spans + [span])
      modifies this`history, this`spans, this`downs
      ensures Valid() && history == old(history) + [c] && spans == old(spans) + [span] && downs == old(downs) + [down]
    {
      history, spans, downs := history + [c], spans + [span], downs + [down];
    }

    /** run_cycle once the down hosts are listed. */
    method RunListed(probes: seq<Probe>)
      requires Valid() && DistinctHosts(probes)
      modifies this
      ensures Valid() && old(failovers) <= failovers && old(attempts) <= attempts && tick >= old(tick)
      ensures downs == old(downs) + [Some(probes)] && spans == old(spans) + [Span(old(tick), tick)]
      ensures MarksFollow(old(unreachableSince), unreachableSince, probes)
      ensures Judged(clock, old(history), history, unreachableSince, grace, failovers[|old(failovers)|..],
                     Span(old(tick), tick))
      ensures Acted(clock, failovers[|old(failovers)|..], attempts[|old(attempts)|..], probes, old(tick), tick)
    {
      StillListed(history, unreachableSince, probes);
      unreachableSince := Retain(unreachableSince, probes);
      ghost var seen := VisitAll(probes);
      Retained(old(unreachableSince), unreachableSince, probes);
      ghost var span := Span(old(tick), tick);
      CycleLogged(clock, old(failovers), failovers[|old(failovers)|..], history, spans, seen, span, unreachableSince,
                  probes);
      TimedMore(clock, history, spans, Listed(seen), span, old(tick), tick);
      Enter(Listed(seen), span, Some(probes));
    }

    /** run_cycle: a failed listing changes nothing. */
    method RunCycle(down: Option<seq<Probe>>)
      requires Valid() && (down.Some? ==> DistinctHosts(down.value))
      modifies this
      ensures Valid() && old(failovers) <= failovers && old(attempts) <= attempts && tick >= old(tick)
      ensures downs == old(downs) + [down] && spans == old(spans) + [Span(old(tick), tick)]
      ensures |history| == |old(history)| + 1 && old(history) <= history
      ensures down.None? ==>
                failovers == old(failovers) && attempts == old(attempts) && unreachableSince == old(unreachableSince)
      ensures down.Some? ==> MarksFollow(old(unreachableSince), unreachableSince, down.value)
      ensures down.Some? ==>
                Judged(clock, old(history), history, unreachableSince, grace, failovers[|old(failovers)|..],
                       Span(old(tick), tick))
      ensures OnlyOverdue(unreachableSince, grace, failovers[|old(failovers)|..])
      ensures down.Some? ==>
                AllOverdue(old(unreachableSince), down.value, clock(old(tick)), grace, failovers[|old(failovers)|..])
      ensures Acted(clock, failovers[|old(failovers)|..], attempts[|old(attempts)|..],
                    if down.Some? then down.value else [], old(tick), tick)
    {
      if down.None? {
        NoListing(history, unreachableSince);
        GenuineExtends(clock, failovers, history, spans, ListFailed, Span(tick, tick));
        TimedMore(clock, history, spans, ListFailed, Span(tick, tick), tick, tick);
        Enter(ListFailed, Span(tick, tick), None);
      } else {
        RunListed(down.value);
        OverdueIff(clock, old(history), history, old(unreachableSince), unreachableSince, down.value, grace,
                   failovers[|old(failovers)|..], Span(old(tick), tick));
      }
    }

    /**
     * start_ha_monitor: every tick outside maintenance runs one cycle. In every run,
     * from any valid state, the log is what the ticks showed, each failover was
     * earned by it, and attempts on one VM are at least the cooldown apart.
     */
    method Watch(ticks: seq<Tick>)
      requires Valid() && forall i :: 0 <= i < |ticks| && ticks[i].Run? && ticks[i].down.Some? ==>
                 DistinctHosts(ticks[i].down.value)
      modifies this
      ensures Valid() && old(failovers) <= failovers && old(attempts) <= attempts && tick >= old(tick)
      ensures downs == old(downs) + Listings(ticks) && Records(history, downs) && Timed(clock, history, spans, tick)
      ensures old(history) <= history && old(spans) <= spans && Since(spans, |old(spans)|, old(tick))
      ensures AllEarned(clock, failovers, history, spans, downs, grace)
      ensures forall f :: f in failovers[|old(failovers)|..] ==>
                Reading(clock, f.at, old(tick), tick) &&
                exists d, p :: d in Listings(ticks) && d.Some? && p in d.value && p.host == f.host && !p.reachable
      ensures Clocked(clock, attempts[|old(attempts)|..], old(tick), tick)
      ensures forall a :: a in attempts[|old(attempts)|..] ==>
                exists d, p :: d in Listings(ticks) && d.Some? && p in d.value && !p.reachable && p.candidates.Some?
                               && a.vm in p.candidates.value
      ensures forall i, j :: 0 <= i < j < |attempts| && attempts[i].vm == attempts[j].vm ==>
                attempts[j].at - attempts[i].at >= cooldown
    {
      RunTicks(ticks);
      EarnedInRun(clock, failovers, history, spans, downs, grace);
    }

    /** One cycle of a run that has shown `shown` since reading `lo`. */
    method RunNext(down: Option<seq<Probe>>, ghost shown: seq<Option<seq<Probe>>>, ghost f: nat, ghost a: nat,
                   ghost lo: nat)
      requires Valid() && (down.Some? ==> DistinctHosts(down.value))
      requires f <= |failovers| && a <= |attempts| && lo <= tick
      requires ActedSoFar(clock, failovers[f..], attempts[a..], shown, lo, tick)
      modifies this
      ensures Valid() && old(failovers) <= failovers && old(attempts) <= attempts && tick >= old(tick)
      ensures old(history) <= history && downs == old(downs) + [down]
      ensures |spans| == |old(spans)| + 1 && old(spans) <= spans && spans[|old(spans)|].from == old(tick)
      ensures ActedSoFar(clock, failovers[f..], attempts[a..], shown + [down], lo, tick)
    {
      RunCycle(down);
      ActedMore(clock, old(failovers), failovers, f, old(attempts), attempts, a, shown, down, lo, old(tick), tick);
    }

    method RunTicks(ticks: seq<Tick>)
      requires Valid() && forall i :: 0 <= i < |ticks| && ticks[i].Run? && ticks[i].down.Some? ==>
                 DistinctHosts(ticks[i].down.value)
      modifies this
      ensures Valid() && old(failovers) <= failovers && old(attempts) <= attempts && old(history) <= history
              && tick >= old(tick)
      ensures downs == old(downs) + Listings(ticks)
      ensures old(spans) <= spans && Since(spans, |old(spans)|, old(tick))
      ensures ActedSoFar(clock, failovers[|old(failovers)|..], attempts[|old(attempts)|..], Listings(ticks), old(tick),
                         tick)
    {
      for i := 0 to |ticks|
        invariant Valid() && old(failovers) <= failovers && old(attempts) <= attempts && old(history) <= history
                  && tick >= old(tick)
        invariant downs == old(downs) + Listings(ticks[..i])
        invariant old(spans) <= spans && Since(spans, |old(spans)|, old(tick))
        invariant ActedSoFar(clock, failovers[|old(failovers)|..], attempts[|old(attempts)|..], Listings(ticks[..i]),
                             old(tick), tick)
      {
        assert ticks[..i + 1][..i] == ticks[..i];
        if ticks[i].Run? {
          RunNext(ticks[i].down, Listings(ticks[..i]), |old(failovers)|, |old(attempts)|, old(tick));
        }
      }
      assert ticks[..|ticks|] == ticks;
    }

    /** One round of that loop. */
    method VisitNext(probes: seq<Probe>, i: nat, ghost l: Loop, ghost seen: seq<Sighting>, ghost f: nat, ghost a: nat)
      returns (ghost s: Sighting)
      requires Accountable() && i < |probes| && AllMarked(history, unreachableSince, seen, probes[i..])
      requires f <= |failovers| && a <= |attempts| && DistinctHosts(probes)
      requires l.clock == clock && l.probes == probes && l.history == history && l.grace == grace
      requires Underway(l, unreachableSince, i, seen, failovers[f..], attempts[a..], tick)
      modifies this`unreachableSince, this`lastAttempt, this`tick, this`failovers, this`attempts
      ensures Accountable() && AllMarked(history, unreachableSince, seen + [s], probes[i + 1..])
      ensures old(failovers) <= failovers && old(attempts) <= attempts
      ensures Underway(l, unreachableSince, i + 1, seen + [s], failovers[f..], attempts[a..], tick)
    {
      assert probes[i..] == [probes[i]] + probes[i + 1..];
      Unvisited(seen, probes, i);
      ghost var marks, before, tried, from := unreachableSince, failovers, attempts, tick;
      s := Visit(probes[i], seen, probes[i + 1..]);
      Onward(before, failovers, f);
      Onward(tried, attempts, a);
      UnderwayStep(l, marks, i, seen, s, before[f..], failovers[|before|..], tried[a..], attempts[|tried|..],
                   from, tick);
    }

    /** run_cycle's loop over the down hosts. */
    method VisitAll(probes: seq<Probe>) returns (ghost seen: seq<Sighting>)
      requires Accountable() && AllMarked(history, unreachableSince, [], probes) && DistinctHosts(probes)
      modifies this`unreachableSince, this`lastAttempt, this`tick, this`failovers, this`attempts
      ensures Accountable() && AllMarked(history, unreachableSince, seen, []) && Reports(Listed(seen), probes)
      ensures old(failovers) <= failovers && old(attempts) <= attempts
      ensures MarksFollow(old(unreachableSince), unreachableSince, probes)
      ensures AllSettled(clock, seen, unreachableSince, grace, failovers[|old(failovers)|..], old(tick), tick)
      ensures AllTraced(failovers[|old(failovers)|..], history, seen) && Stamped(clock, seen, old(tick), tick)
              && tick >= old(tick)
      ensures Acted(clock, failovers[|old(failovers)|..], attempts[|old(attempts)|..], probes, old(tick), tick)
    {
      seen := [];
      assert probes[0..] == probes;
      ghost var loop := Loop(clock, unreachableSince, probes, history, grace, tick);
      for i := 0 to |probes|
        invariant Accountable() && AllMarked(history, unreachableSince, seen, probes[i..])
        invariant old(failovers) <= failovers && old(attempts) <= attempts
        invariant Underway(loop, unreachableSince, i, seen, failovers[|old(failovers)|..], attempts[|old(attempts)|..],
                           tick)
      {
        ghost var s := VisitNext(probes, i, loop, seen, |old(failovers)|, |old(attempts)|);
        seen := seen + [s];
      }
      assert probes[..|probes|] == probes && probes[|probes|..] == [];
      ProgressDone(old(unreachableSince), unreachableSince, seen, probes);
    }
  }

  /** What does not change while run_cycle's loop runs: among others the marks and the clock reading it started from. */
  datatype Loop = Loop(clock: nat -> int, start: map<Host, int>, probes: seq<Probe>, history: seq<Cycle>, grace: nat,
                       from: nat)

  /** The loop after `i` hosts: what it saw, marked and did, and which clock readings it took. */
  ghost predicate Underway(l: Loop, marks: map<Host, int>, i: nat, seen: seq<Sighting>, failovers: seq<Failover>,
                           attempts: seq<Attempt>, now: nat) {
    && i <= |l.probes| && l.from <= now && Reports(Listed(seen), l.probes[..i])
    && Progress(l.start, marks, l.probes, i) && AllSettled(l.clock, seen, marks, l.grace, failovers, l.from, now)
    && AllTraced(failovers, l.history, seen) && Stamped(l.clock, seen, l.from, now)
    && Acted(l.clock, failovers, attempts, l.probes[..i], l.from, now)
  }

  lemma UnderwayStep(l: Loop, marks: map<Host, int>, i: nat, seen: seq<Sighting>, s: Sighting,
                     fs: seq<Failover>, fs': seq<Failover>, vs: seq<Attempt>, vs': seq<Attempt>, from: nat, now: nat)
    requires Underway(l, marks, i, seen, fs, vs, from) && i < |l.probes| && DistinctHosts(l.probes)
             && Monotone(l.clock) && from < now
    requires s == Sighting(l.probes[i].host, l.probes[i].reachable, l.clock(from)) && (fs' != [] ==> from + 2 <= now)
    requires var marks' := NextMarks(marks, l.probes[i], l.clock(from));
             fs' == if s.reachable || l.clock(from + 1) - marks'[s.host] < l.grace then []
                    else [Failover(s.host, l.clock(from + 1), l.history + [Listed(seen + [s])])]
    requires AttemptsFrom(vs', [l.probes[i]]) && Clocked(l.clock, vs', from, now)
    ensures Underway(l, NextMarks(marks, l.probes[i], l.clock(from)), i + 1, seen + [s], fs + fs', vs + vs', now)
  {
    assert l.probes[..i + 1] == l.probes[..i] + [l.probes[i]];
    ProgressStep(l.start, marks, l.probes, i, l.clock(from));
    SettledMore(l, marks, i, seen, s, fs, fs', from, now);
    TracedMore(l.clock, fs, fs', l.history, seen, s, l.from, from, now);
    VisitActed(l.clock, fs, fs', vs, vs', l.probes, i, l.from, from, now);
  }

  function NextMarks(marks: map<Host, int>, probe: Probe, now: int): map<Host, int> {
    if probe.reachable then marks - {probe.host}
    else if probe.host in marks then marks else marks[probe.host := now]
  }

  predicate FailedOver(failovers: seq<Failover>, h: Host) {
    exists f :: f in failovers && f.host == h
  }

  predicate SameMark(m: map<Host, int>, m': map<Host, int>, h: Host) {
    (h in m <==> h in m') && (h in m ==> m[h] == m'[h])
  }

  /** Exactly the hosts that failed their probe are marked, and a mark is never renewed. */
  ghost predicate MarksFollow(before: map<Host, int>, after: map<Host, int>, probes: seq<Probe>) {
    && (forall p :: p in probes ==> (p.host in after <==> !p.reachable))
    && (forall h :: h in after ==> AheadIn(probes, h) && (h in before ==> after[h] == before[h]))
  }

  /**
   * The host was probed at one clock reading and judged at the next: it is failed over
   * then if it did not answer and its mark is at least the grace period old, and
   * otherwise not at all.
   */
  ghost predicate SettledAt(clock: nat -> int, s: Sighting, marks: map<Host, int>, grace: nat,
                            failovers: seq<Failover>, i: nat) {
    && s.at == clock(i)
    && (FailedOver(failovers, s.host) <==>
        !s.reachable && s.host in marks && clock(i + 1) - marks[s.host] >= grace)
    && forall f :: f in failovers && f.host == s.host ==> f.at == clock(i + 1)
  }

  ghost predicate Settled(clock: nat -> int, s: Sighting, marks: map<Host, int>, grace: nat,
                          failovers: seq<Failover>, lo: nat, hi: nat) {
    exists i: nat :: lo <= i < hi && SettledAt(clock, s, marks, grace, failovers, i)
  }

  ghost predicate AllSettled(clock: nat -> int, seen: seq<Sighting>, marks: map<Host, int>, grace: nat,
                             failovers: seq<Failover>, lo: nat, hi: nat) {
    forall s :: s in seen ==> Settled(clock, s, marks, grace, failovers, lo, hi)
  }

  /** The cycle added to the log settles each host it saw, and what was failed over was failed over in it. */
  ghost predicate Judged(clock: nat -> int, before: seq<Cycle>, history: seq<Cycle>, marks: map<Host, int>, grace: nat,
                         failovers: seq<Failover>, span: Span) {
    && |history| == |before| + 1 && before <= history && history[|before|].Listed?
    && AllSettled(clock, history[|before|].seen, marks, grace, failovers, span.from, span.to)
    && forall f :: f in failovers ==> SawCycle(f, history, |before|)
  }

  /** Every host still unreachable whose mark was already old enough when the cycle began is failed over in it. */
  ghost predicate AllOverdue(before: map<Host, int>, probes: seq<Probe>, now: int, grace: nat,
                             failovers: seq<Failover>) {
    forall p :: p in probes && !p.reachable && p.host in before && now - before[p.host] >= grace ==>
        FailedOver(failovers, p.host)
  }

  /** Only hosts whose mark was old enough at that moment are failed over. */
  ghost predicate OnlyOverdue(marks: map<Host, int>, grace: nat, failovers: seq<Failover>) {
    forall f :: f in failovers ==> f.host in marks && f.at - marks[f.host] >= grace
  }

  /** What settling each host means for the marks: no host is failed over early and none is forgotten. */
  lemma OverdueIff(clock: nat -> int, was: seq<Cycle>, history: seq<Cycle>, before: map<Host, int>,
                   marks: map<Host, int>, probes: seq<Probe>, grace: nat, failovers: seq<Failover>, span: Span)
    requires Monotone(clock) && Judged(clock, was, history, marks, grace, failovers, span)
    requires Reports(history[|was|], probes) && MarksFollow(before, marks, probes)
    ensures OnlyOverdue(marks, grace, failovers) && AllOverdue(before, probes, clock(span.from), grace, failovers)
  {
    var seen := history[|was|].seen;
    forall f | f in failovers ensures f.host in marks && f.at - marks[f.host] >= grace {
      assert SawCycle(f, history, |was|);
      var k: nat :| SawUpTo(f, history, |was|, k);
      assert seen[k] in seen && Settled(clock, seen[k], marks, grace, failovers, span.from, span.to);
    }
    forall p | p in probes && !p.reachable && p.host in before && clock(span.from) - before[p.host] >= grace
      ensures FailedOver(failovers, p.host)
    {
      var k :| 0 <= k < |probes| && probes[k] == p;
      assert seen[k] in seen && Settled(clock, seen[k], marks, grace, failovers, span.from, span.to);
      var i: nat :| span.from <= i < span.to && SettledAt(clock, seen[k], marks, grace, failovers, i);
      assert clock(span.from) <= clock(i + 1);
    }
  }

  /** The marks after visiting the first `i` hosts of the list. */
  ghost predicate Progress(before: map<Host, int>, marks: map<Host, int>, probes: seq<Probe>, i: nat) {
    && (forall k :: 0 <= k < i && k < |probes| ==> (probes[k].host in marks <==> !probes[k].reachable))
    && (forall k :: i <= k < |probes| ==> SameMark(before, marks, probes[k].host))
    && (forall h :: h in marks && h in before ==> marks[h] == before[h])
  }

  lemma ProgressStep(before: map<Host, int>, marks: map<Host, int>, probes: seq<Probe>, i: nat, now: int)
    requires i < |probes| && DistinctHosts(probes) && Progress(before, marks, probes, i)
    ensures Progress(before, NextMarks(marks, probes[i], now), probes, i + 1)
  {
    assert SameMark(before, marks, probes[i].host);
  }

  lemma ProgressDone(before: map<Host, int>, marks: map<Host, int>, seen: seq<Sighting>, probes: seq<Probe>)
    requires Progress(before, marks, probes, |probes|)
    requires forall h :: h in marks ==> SeenIn(seen, h)
    requires Reports(Listed(seen), probes)
    ensures MarksFollow(before, marks, probes)
  {
    forall h | h in marks ensures AheadIn(probes, h) {
      var s :| s in seen && s.host == h;
      var i :| 0 <= i < |seen| && seen[i] == s;
      assert probes[i] in probes;
    }
  }

  lemma SettledMore(l: Loop, marks: map<Host, int>, i: nat, seen: seq<Sighting>, s: Sighting, fs: seq<Failover>,
                    fs': seq<Failover>, from: nat, now: nat)
    requires i < |l.probes| && DistinctHosts(l.probes) && Reports(Listed(seen), l.probes[..i]) && l.from <= from < now
    requires AllSettled(l.clock, seen, marks, l.grace, fs, l.from, from) && AllTraced(fs, l.history, seen)
    requires s == Sighting(l.probes[i].host, l.probes[i].reachable, l.clock(from))
    requires var marks' := NextMarks(marks, l.probes[i], l.clock(from));
             fs' == if s.reachable || l.clock(from + 1) - marks'[s.host] < l.grace then []
                    else [Failover(s.host, l.clock(from + 1), l.history + [Listed(seen + [s])])]
    ensures AllSettled(l.clock, seen + [s], NextMarks(marks, l.probes[i], l.clock(from)), l.grace, fs + fs', l.from,
                       now)
  {
    Unvisited(seen, l.probes, i);
    var marks' := NextMarks(marks, l.probes[i], l.clock(from));
    forall x | x in seen + [s] ensures Settled(l.clock, x, marks', l.grace, fs + fs', l.from, now) {
      if x in seen {
        assert x.host != s.host;
        var j: nat :| l.from <= j < from && SettledAt(l.clock, x, marks, l.grace, fs, j);
        assert forall f :: f in fs' ==> f.host == s.host;
        assert FailedOver(fs + fs', x.host) <==> FailedOver(fs, x.host);
        assert SettledAt(l.clock, x, marks', l.grace, fs + fs', j);
      } else {
        TracedToOthers(fs, l.history, seen, s.host);
        assert FailedOver(fs + fs', s.host) <==> fs' != [];
        assert SettledAt(l.clock, s, marks', l.grace, fs + fs', from);
      }
    }
  }

  lemma TracedToOthers(fs: seq<Failover>, history: seq<Cycle>, seen: seq<Sighting>, h: Host)
    requires AllTraced(fs, history, seen) && !SeenIn(seen, h)
    ensures !FailedOver(fs, h)
  {
    forall f | f in fs ensures f.host != h {
      assert Traced(f, history, seen);
    }
  }

  function Retain(marks: map<Host, int>, probes: seq<Probe>): map<Host, int> {
    map h | h in marks && AheadIn(probes, h) :: marks[h]
  }

  lemma StillListed(history: seq<Cycle>, marks: map<Host, int>, probes: seq<Probe>)
    requires AllDown(history, marks)
    ensures AllMarked(history, Retain(marks, probes), [], probes)
  {
  }

  /** Dropping the marks of hosts no longer listed as down changes nothing for those that are. */
  lemma Retained(before: map<Host, int>, after: map<Host, int>, probes: seq<Probe>)
    requires MarksFollow(Retain(before, probes), after, probes)
    ensures MarksFollow(before, after, probes)
  {
  }

  /** Each attempt is on a candidate of a host whose probe failed. */
  ghost predicate AttemptsFrom(attempts: seq<Attempt>, probes: seq<Probe>) {
    forall a :: a in attempts ==> exists p :: p in probes && Candidate(p, a.vm)
  }

  lemma OneProbe(attempts: seq<Attempt>, p: Probe)
    requires forall a :: a in attempts ==> Candidate(p, a.vm)
    ensures AttemptsFrom(attempts, [p])
  {
    assert p in [p];
  }

  predicate Candidate(p: Probe, vm: Vm) {
    !p.reachable && p.candidates.Some? && vm in p.candidates.value
  }

  ghost predicate FailoversFrom(clock: nat -> int, failovers: seq<Failover>, probes: seq<Probe>, lo: nat, hi: nat) {
    forall f :: f in failovers ==>
        Reading(clock, f.at, lo, hi) && exists p :: p in probes && p.host == f.host && !p.reachable
  }

  /** What was done during one listing, and when the clock was read for it. */
  ghost predicate Acted(clock: nat -> int, failovers: seq<Failover>, attempts: seq<Attempt>, probes: seq<Probe>,
                        lo: nat, hi: nat) {
    FailoversFrom(clock, failovers, probes, lo, hi) && AttemptsFrom(attempts, probes)
      && Clocked(clock, attempts, lo, hi)
  }

  predicate SomeUnreachable(downs: seq<Option<seq<Probe>>>, h: Host) {
    exists d :: d in downs && Unreachable(d, h)
  }

  predicate SomeCandidate(downs: seq<Option<seq<Probe>>>, vm: Vm) {
    exists d :: d in downs && d.Some? && exists p :: p in d.value && Candidate(p, vm)
  }

  ghost predicate ActedSoFar(clock: nat -> int, failovers: seq<Failover>, attempts: seq<Attempt>,
                             downs: seq<Option<seq<Probe>>>, lo: nat, hi: nat) {
    && (forall f :: f in failovers ==> Reading(clock, f.at, lo, hi) && SomeUnreachable(downs, f.host))
    && (forall a :: a in attempts ==> SomeCandidate(downs, a.vm)) && Clocked(clock, attempts, lo, hi)
  }

  /** The failover saw the log and this cycle's sightings up to its own host's. */
  ghost predicate Traced(f: Failover, history: seq<Cycle>, seen: seq<Sighting>) {
    exists k ::
        0 <= k < |seen| && f.history == history + [Listed(seen[..k + 1])] && f.host == seen[k].host
          && !seen[k].reachable
  }

  ghost predicate AllTraced(failovers: seq<Failover>, history: seq<Cycle>, seen: seq<Sighting>) {
    forall f :: f in failovers ==> Traced(f, history, seen)
  }

  lemma TracedIsLast(f: Failover, history: seq<Cycle>, seen: seq<Sighting>)
    requires Traced(f, history, seen)
    ensures SawCycle(f, history + [Listed(seen)], |history|)
  {
    var k :| 0 <= k < |seen| && f.history == history + [Listed(seen[..k + 1])] && f.host == seen[k].host
      && !seen[k].reachable;
    assert (history + [Listed(seen)])[..|history|] == history;
    assert SawUpTo(f, history + [Listed(seen)], |history|, k);
  }

  /** Adding a cycle to the log: what it did is on record in it, and nothing before it is lost. */
  lemma CycleLogged(clock: nat -> int, was: seq<Failover>, failovers: seq<Failover>, history: seq<Cycle>,
                    spans: seq<Span>, seen: seq<Sighting>, span: Span, marks: map<Host, int>, probes: seq<Probe>)
    requires AllGenuine(clock, was, history, spans) && |spans| == |history| && AllTraced(failovers, history, seen)
    requires FailoversFrom(clock, failovers, probes, span.from, span.to) && AllMarked(history, marks, seen, [])
    ensures AllGenuine(clock, was + failovers, history + [Listed(seen)], spans + [span])
    ensures AllDown(history + [Listed(seen)], marks)
    ensures forall f :: f in failovers ==> SawCycle(f, history + [Listed(seen)], |history|)
  {
    AllProbed(history, marks, seen);
    GenuineExtends(clock, was, history, spans, Listed(seen), span);
    forall f | f in failovers
      ensures SawCycle(f, history + [Listed(seen)], |history|)
              && Genuine(clock, f, history + [Listed(seen)], spans + [span])
    {
      TracedIsLast(f, history, seen);
      assert MadeIn(clock, f, history + [Listed(seen)], spans + [span], |history|);
    }
  }

  lemma Onward<T>(before: seq<T>, after: seq<T>, n: nat)
    requires n <= |before| && before <= after
    ensures after[n..] == before[n..] + after[|before|..]
  {
  }

  lemma ReadingLonger(clock: nat -> int, t: int, lo: nat, hi: nat, lo': nat, hi': nat)
    requires Reading(clock, t, lo, hi) && lo' <= lo && hi <= hi'
    ensures Reading(clock, t, lo', hi')
  {
  }

  lemma TracedMore(clock: nat -> int, fs: seq<Failover>, fs': seq<Failover>, history: seq<Cycle>, seen: seq<Sighting>,
                   s: Sighting,
                   lo: nat, from: nat, hi: nat)
    requires lo <= from < hi && s.at == clock(from) && AllTraced(fs, history, seen) && Stamped(clock, seen, lo, from)
    requires forall f :: f in fs' ==> !s.reachable && f.host == s.host && f.history == history + [Listed(seen + [s])]
    ensures AllTraced(fs + fs', history, seen + [s]) && Stamped(clock, seen + [s], lo, hi)
  {
    forall f | f in fs + fs' ensures Traced(f, history, seen + [s]) {
      if f in fs {
        assert Traced(f, history, seen);
        var k :| 0 <= k < |seen| && f.history == history + [Listed(seen[..k + 1])] && f.host == seen[k].host
          && !seen[k].reachable;
        assert (seen + [s])[..k + 1] == seen[..k + 1];
      } else {
        assert (seen + [s])[..|seen| + 1] == seen + [s] && (seen + [s])[|seen|] == s;
      }
    }
    forall x | x in seen + [s] ensures Reading(clock, x.at, lo, hi) {
      if x in seen {
        ReadingLonger(clock, x.at, lo, from, lo, hi);
      }
    }
  }

  /** Two stretches of the same listing add up. */
  lemma ActedTogether(clock: nat -> int, fs: seq<Failover>, fs': seq<Failover>, vs: seq<Attempt>, vs': seq<Attempt>,
                      ps: seq<Probe>, ps': seq<Probe>, lo: nat, from: nat, hi: nat)
    requires Acted(clock, fs, vs, ps, lo, from) && Acted(clock, fs', vs', ps', from, hi) && lo <= from <= hi
    ensures Acted(clock, fs + fs', vs + vs', ps + ps', lo, hi)
  {
    ClockedLonger(clock, vs, lo, from, lo, hi);
    ClockedLonger(clock, vs', from, hi, lo, hi);
    forall f | f in fs + fs' ensures Reading(clock, f.at, lo, hi) {
      if f in fs {
        ReadingLonger(clock, f.at, lo, from, lo, hi);
      } else {
        ReadingLonger(clock, f.at, from, hi, lo, hi);
      }
    }
  }

  lemma VisitActed(clock: nat -> int, fs: seq<Failover>, fs': seq<Failover>, vs: seq<Attempt>, vs': seq<Attempt>,
                   probes: seq<Probe>, i: nat, lo: nat, from: nat, hi: nat)
    requires i < |probes| && lo <= from < hi && (fs' != [] ==> from + 2 <= hi)
             && Acted(clock, fs, vs, probes[..i], lo, from)
    requires AttemptsFrom(vs', [probes[i]]) && Clocked(clock, vs', from, hi)
    requires forall f :: f in fs' ==> !probes[i].reachable && f.host == probes[i].host && f.at == clock(from + 1)
    ensures Acted(clock, fs + fs', vs + vs', probes[..i + 1], lo, hi)
  {
    assert probes[..i + 1] == probes[..i] + [probes[i]] && probes[i] in [probes[i]];
    assert fs' != [] ==> Reading(clock, clock(from + 1), from, hi);
    ActedTogether(clock, fs, fs', vs, vs', probes[..i], [probes[i]], lo, from, hi);
  }

  lemma ActedMore(clock: nat -> int, before: seq<Failover>, after: seq<Failover>, b: nat, tried: seq<Attempt>,
                  now: seq<Attempt>, c: nat,
                  downs: seq<Option<seq<Probe>>>, down: Option<seq<Probe>>, lo: nat, from: nat, hi: nat)
    requires b <= |before| && before <= after && c <= |tried| && tried <= now && lo <= from <= hi
    requires ActedSoFar(clock, before[b..], tried[c..], downs, lo, from)
    requires Acted(clock, after[|before|..], now[|tried|..], if down.Some? then down.value else [], from, hi)
    ensures ActedSoFar(clock, after[b..], now[c..], downs + [down], lo, hi)
  {
    assert after[b..] == before[b..] + after[|before|..] && now[c..] == tried[c..] + now[|tried|..];
    ClockedLonger(clock, tried[c..], lo, from, lo, hi);
    ClockedLonger(clock, now[|tried|..], from, hi, lo, hi);
    assert down in downs + [down] && forall d :: d in downs ==> d in downs + [down];
    forall f | f in after[b..] ensures Reading(clock, f.at, lo, hi) && SomeUnreachable(downs + [down], f.host) {
      if f in before[b..] {
        ReadingLonger(clock, f.at, lo, from, lo, hi);
      } else {
        ReadingLonger(clock, f.at, from, hi, lo, hi);
        assert Unreachable(down, f.host);
      }
    }
  }

  ghost predicate Clocked(clock: nat -> int, attempts: seq<Attempt>, lo: nat, hi: nat) {
    forall a :: a in attempts ==> Reading(clock, a.at, lo, hi)
  }

  lemma ClockedLonger(clock: nat -> int, attempts: seq<Attempt>, lo: nat, hi: nat, lo': nat, hi': nat)
    requires Clocked(clock, attempts, lo, hi) && lo' <= lo && hi <= hi'
    ensures Clocked(clock, attempts, lo', hi')
  {
    forall a | a in attempts ensures Reading(clock, a.at, lo', hi') {
      assert Reading(clock, a.at, lo, hi);
    }
  }

  /** No attempt on record, or the last one is at least the cooldown ago. */
  predicate Due(last: map<Vm, int>, vm: Vm, now: int, cooldown: nat) {
    vm in last ==> now - last[vm] >= cooldown
  }

  predicate Attempted(attempts: seq<Attempt>, vm: Vm) {
    exists a :: a in attempts && a.vm == vm
  }

  predicate SameEntry(m: map<Vm, int>, m': map<Vm, int>, vm: Vm) {
    (vm in m <==> vm in m') && (vm in m ==> m[vm] == m'[vm])
  }

  lemma AttemptedMore(attempts: seq<Attempt>, start: nat, a: Attempt)
    requires start <= |attempts|
    ensures (attempts + [a])[start..] == attempts[start..] + [a]
    ensures forall vm :: Attempted(attempts[start..] + [a], vm) <==> Attempted(attempts[start..], vm) || vm == a.vm
  {
    assert a in attempts[start..] + [a];
  }

  predicate DistinctHosts(probes: seq<Probe>) {
    forall i, j :: 0 <= i < j < |probes| ==> probes[i].host != probes[j].host
  }

  predicate SeenIn(seen: seq<Sighting>, h: Host) {
    exists s :: s in seen && s.host == h
  }

  predicate AheadIn(rest: seq<Probe>, h: Host) {
    exists p :: p in rest && p.host == h
  }

  /** A mark on a host already probed this cycle, or still to be probed, tells since when it is down. */
  ghost predicate MarkOk(history: seq<Cycle>, seen: seq<Sighting>, rest: seq<Probe>, h: Host, t: int) {
    if SeenIn(seen, h) then DownSince(history + [Listed(seen)], h, t)
    else AheadIn(rest, h) && DownSince(history, h, t)
  }

  ghost predicate AllMarked(history: seq<Cycle>, marks: map<Host, int>, seen: seq<Sighting>, rest: seq<Probe>) {
    forall h :: h in marks ==> MarkOk(history, seen, rest, h, marks[h])
  }

  lemma MarkJustifies(f: Failover, grace: nat, t: int, seen: seq<Sighting>, s: Sighting, rest: seq<Probe>)
    requires |f.history| > 0 && f.history[|f.history| - 1] == Listed(seen + [s]) && s.host == f.host
             && f.at - t >= grace
    requires MarkOk(f.history[..|f.history| - 1], seen + [s], rest, f.host, t)
    ensures Justified(f, grace)
  {
    assert s in seen + [s];
    assert f.history == f.history[..|f.history| - 1] + [Listed(seen + [s])];
  }

  lemma Unvisited(seen: seq<Sighting>, probes: seq<Probe>, i: nat)
    requires i < |probes| && Reports(Listed(seen), probes[..i]) && DistinctHosts(probes)
    ensures !SeenIn(seen, probes[i].host) && !AheadIn(probes[i + 1..], probes[i].host)
  {
  }

  lemma NoListing(history: seq<Cycle>, marks: map<Host, int>)
    requires AllDown(history, marks)
    ensures AllDown(history + [ListFailed], marks)
  {
    forall h | h in marks ensures DownSince(history + [ListFailed], h, marks[h]) {
      DownSinceExtends(history, ListFailed, h, marks[h]);
    }
  }

  lemma AllProbed(history: seq<Cycle>, marks: map<Host, int>, seen: seq<Sighting>)
    requires AllMarked(history, marks, seen, [])
    ensures AllDown(history + [Listed(seen)], marks)
  {
    forall h | h in marks ensures DownSince(history + [Listed(seen)], h, marks[h]) {
      assert MarkOk(history, seen, [], h, marks[h]);
    }
  }

  /** Adding one sighting keeps every mark justified. */
  lemma MarkedStep(history: seq<Cycle>, was: map<Host, int>, now: map<Host, int>, seen: seq<Sighting>, s: Sighting,
                   probe: Probe, rest: seq<Probe>)
    requires AllMarked(history, was, seen, [probe] + rest)
    requires !SeenIn(seen, probe.host) && !AheadIn(rest, probe.host) && s.host == probe.host
    requires forall h :: h in now && h != probe.host ==> h in was && now[h] == was[h]
    requires probe.host in now ==>
               !s.reachable && now[probe.host] == if probe.host in was then was[probe.host] else s.at
    ensures AllMarked(history, now, seen + [s], rest)
  {
    forall h | h in now ensures MarkOk(history, seen + [s], rest, h, now[h]) {
      assert forall x :: x in seen + [s] <==> x in seen || x == s;
      if h == probe.host {
        var c := Listed(seen + [s]);
        assert s in c.seen && FailedProbe(c, h);
        if h in was {
          DownSinceExtends(history, c, h, now[h]);
        } else {
          assert SightedAt(c, h, now[h]);
          DownSinceStarts(history, c, h, now[h]);
        }
      } else if SeenIn(seen, h) {
        DownSinceIgnores(history, seen, s, h, now[h]);
      }
    }
  }
}
