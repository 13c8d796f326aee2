/**
 * The durable cleanup queue: one row per object, retried until the nodes have
 * confirmed deletion (qarax/src/storage_cleanup.rs).
 */
module StorageCleanup {
  import opened Common

  type Host = nat

  datatype Reply = Confirmed | Refused | TimedOut

  datatype Commit = Committed | RolledBack | LandedUnreported

  /** Everything outside the worker during one attempt: the database's answers and failures, and the nodes' replies. */
  datatype Attempt = Attempt(
    readFails: bool, listFails: bool, lookupFails: nat -> bool, writeFails: bool, commit: Commit,
    listing: seq<Host>, known: Host -> bool, reply: nat -> Reply)

  /** Deleted(false) leaves the row for a later attempt. */
  datatype Outcome = Deleted(done: bool) | DbError

  datatype Row = Row(hosts: seq<Host>, attempts: nat)

  /* ---- what the nodes say during one attempt ---- */

  /** The i-th host contacted exists and confirms. */
  predicate Confirms(a: Attempt, targets: seq<Host>, i: nat)
    requires i < |targets|
  {
    a.known(targets[i]) && a.reply(i) == Confirmed
  }

  /** The hosts among the first `n` contacted that confirm. */
  function Heard(a: Attempt, targets: seq<Host>, n: nat): set<Host>
    requires n <= |targets|
  {
    set i | 0 <= i < n && Confirms(a, targets, i) :: targets[i]
  }

  /** Enough was heard to delete the row: anyone on a shared pool, everyone on a local one. */
  predicate Enough(a: Attempt, shared: bool, targets: seq<Host>, n: nat)
    requires n <= |targets|
  {
    Heard(a, targets, n) != {} && (shared || Elements(targets) <= Heard(a, targets, n))
  }

  /** How many hosts are contacted: until enough was heard, a lookup fails, or none is left. */
  function Reached(a: Attempt, shared: bool, targets: seq<Host>, n: nat): (r: nat)
    requires n <= |targets|
    ensures n <= r <= |targets|
    ensures forall i :: n <= i < r ==> !a.lookupFails(i) && !Enough(a, shared, targets, i)
    ensures r < |targets| ==> a.lookupFails(r) || Enough(a, shared, targets, r)
    decreases |targets| - n
  {
    if n == |targets| || Enough(a, shared, targets, n) || a.lookupFails(n) then n
        else Reached(a, shared, targets, n + 1)
  }

  function Answers(a: Attempt, shared: bool, targets: seq<Host>): set<Host> {
    Heard(a, targets, Reached(a, shared, targets, 0))
  }

  predicate Completes(a: Attempt, shared: bool, targets: seq<Host>) {
    Enough(a, shared, targets, Reached(a, shared, targets, 0))
  }

  /** No lookup failed before the loop was done. */
  predicate Concludes(a: Attempt, shared: bool, targets: seq<Host>) {
    Reached(a, shared, targets, 0) == |targets| || Completes(a, shared, targets)
  }

  /** The hosts that have not confirmed. */
  function Outside(done: set<Host>): Host -> bool {
    (h: Host) => h !in done
  }

  lemma HeardMore(a: Attempt, targets: seq<Host>, n: nat)
    requires n < |targets|
    ensures Confirms(a, targets, n) ==> Heard(a, targets, n + 1) == Heard(a, targets, n) + {targets[n]}
    ensures !Confirms(a, targets, n) ==> Heard(a, targets, n + 1) == Heard(a, targets, n)
  {
  }

  /** Who remains after one more confirmation. */
  lemma OneMoreHeard(a: Attempt, targets: seq<Host>, n: nat)
    requires n < |targets| && Confirms(a, targets, n)
    ensures var done := Heard(a, targets, n + 1);
            && done != {} && Filter(Filter(targets, Outside(Heard(a, targets, n))),
                                    Outside({targets[n]})) == Filter(targets, Outside(done))
            && (Filter(targets, Outside(done)) == [] <==> Elements(targets) <= done)
  {
    HeardMore(a, targets, n);
    FilterTwice(targets, Heard(a, targets, n), targets[n]);
    NoneRemainIff(targets, Heard(a, targets, n + 1));
    assert targets[n] in Heard(a, targets, n + 1);
  }

  /* ---- the ledger: the row, and what has happened in the world ---- */

  /**
   * `confirmed` are the hosts that ever confirmed and `obliged` those whose
   * confirmation a local row waits for.
   */
  datatype Ledger = Ledger(row: Option<Row>, confirmed: set<Host>, obliged: set<Host>)

  function Targets(shared: bool, a: Attempt, hosts: seq<Host>): seq<Host> {
    if shared || hosts == [] then a.listing else hosts
  }

  predicate Lists(shared: bool, l: Ledger) {
    l.row.Some? && (shared || l.row.value.hosts == [])
  }

  /** The attempt gets as far as contacting nodes. */
  predicate Contacts(shared: bool, l: Ledger, a: Attempt) {
    !a.readFails && l.row.Some? && (Lists(shared, l) ==> !a.listFails)
  }

  /** The attempt's outcome becomes durable: its lookups, its write and its commit land. */
  predicate Lands(shared: bool, l: Ledger, a: Attempt) {
    && Contacts(shared, l, a) && Concludes(a, shared, Targets(shared, a, l.row.value.hosts))
    && !a.writeFails && a.commit != RolledBack
  }

  /**
   * The ledger after one attempt. Confirmations are facts of the world and stay even
   * when the transaction rolls back.
   */
  function After(shared: bool, l: Ledger, a: Attempt): Ledger {
    if !Contacts(shared, l, a) then l
    else
      var targets := Targets(shared, a, l.row.value.hosts);
      var done := Answers(a, shared, targets);
      var heard := l.(confirmed := l.confirmed + done);
      if !Lands(shared, l, a) then heard
      else
        heard.(obliged := if !shared && l.row.value.hosts == [] then Elements(targets) else l.obliged,
               row := if Completes(a, shared, targets) then None
                      else Some(Row(Filter(targets, Outside(done)), l.row.value.attempts + 1)))
  }

  function AfterAll(shared: bool, l: Ledger, attempts: seq<Attempt>): Ledger
    decreases |attempts|
  {
    if attempts == [] then l
        else After(shared, AfterAll(shared, l, attempts[..|attempts| - 1]), attempts[|attempts| - 1])
  }

  class Cleanup {
    const shared: bool
    var row: Option<Row>
    ghost var ledger: Ledger

    ghost predicate Valid()
      reads this
    {
      ledger.row == row
    }

    constructor (shared: bool, hosts: seq<Host>)
      ensures Valid() && this.shared == shared && ledger == Start(hosts)
    {
      this.shared, row := shared, Some(Row(hosts, 0));
      ledger := Start(hosts);
    }

    /** The loop over nodes: stops at the first confirmation of a shared pool, and once nobody remains. */
    method Contact(a: Attempt, targets: seq<Host>) returns (ok: bool, completed: bool, remaining: seq<Host>)
      ensures ok <==> Concludes(a, shared, targets)
      ensures ok ==> (completed <==> Completes(a, shared, targets))
      ensures ok ==> remaining == Filter(targets, Outside(Answers(a, shared, targets)))
    {
      ok, completed, remaining := true, false, targets;
      KeepsAll(targets);
      assert Heard(a, targets, 0) == {};
      for i := 0 to |targets|
        invariant ok && !completed && remaining == Filter(targets, Outside(Heard(a, targets, i)))
        invariant Reached(a, shared, targets, 0) == Reached(a, shared, targets, i) && !Enough(a, shared, targets, i)
      {
        if a.lookupFails(i) {
          return false, false, remaining;
        }
        HeardMore(a, targets, i);
        if a.known(targets[i]) && a.reply(i) == Confirmed {
          OneMoreHeard(a, targets, i);
          remaining := Filter(remaining, Outside({targets[i]}));
          if shared || remaining == [] {
            completed := true;
            return;
          }
        }
      }
    }

    /** process: one attempt in one transaction. */
    method Process(a: Attempt) returns (r: Outcome)
      requires Valid()
      modifies this
      ensures Valid() && ledger == After(shared, old(ledger), a)
      ensures r.Deleted? ==> (r.done <==> row.None?)
      ensures r.DbError? <==>
                a.readFails || (old(row).Some? && (!Lands(shared, old(ledger), a) || a.commit != Committed))
    {
      ghost var l := ledger;
      ledger := After(shared, l, a);
      if a.readFails {
        return DbError;
      }
      if row.None? {
        return Deleted(true);
      }
      var targets := row.value.hosts;
      if shared || targets == [] {
        if a.listFails {
          return DbError;
        }
        targets := a.listing;
      }
      var ok, completed, remaining := Contact(a, targets);
      if !ok || a.writeFails || a.commit == RolledBack {
        return DbError;
      }
      r := if a.commit == Committed then Deleted(completed) else DbError;
      row := if completed then None else Some(Row(remaining, row.value.attempts + 1));
    }

    /** Any sequence of attempts. */
    method Retry(attempts: seq<Attempt>)
      requires Valid()
      modifies this
      ensures Valid() && ledger == AfterAll(shared, old(ledger), attempts)
    {
      for i := 0 to |attempts|
        invariant Valid() && ledger == AfterAll(shared, old(ledger), attempts[..i])
      {
        assert attempts[..i + 1][..i] == attempts[..i];
        var _ := Process(attempts[i]);
      }
      assert attempts[..|attempts|] == attempts;
    }
  }

  function Start(hosts: seq<Host>): Ledger {
    Ledger(Some(Row(hosts, 0)), {}, Elements(hosts))
  }

  /* ---- what the attempts amount to ---- */

  /** What holds of a local pool between attempts, whatever failed before. */
  predicate Safe(l: Ledger) {
    match l.row
    case Some(r) => l.obliged <= Elements(r.hosts) + l.confirmed && (r.hosts == [] <==> l.obliged == {})
    case None => l.obliged != {} && l.obliged <= l.confirmed
  }

  lemma AfterSafe(l: Ledger, a: Attempt)
    requires Safe(l)
    ensures Safe(After(false, l, a))
  {
    if Lands(false, l, a) {
      var targets := Targets(false, a, l.row.value.hosts);
      var done := Answers(a, false, targets);
      RemainOrDone(targets, done);
      NoneRemainIff(targets, done);
      assert targets != [] ==> targets[0] in Elements(targets);
    }
  }

  /**
   * Over any sequence of attempts, including ones rolled back midway, a local row
   * goes only after every obliged host confirmed, and always names those that did not.
   */
  lemma {:induction false} LocalRetriesSafe(hosts: seq<Host>, attempts: seq<Attempt>)
    ensures Safe(AfterAll(false, Start(hosts), attempts))
    decreases |attempts|
  {
    if attempts == [] {
      assert hosts != [] ==> hosts[0] in Elements(hosts);
    } else {
      LocalRetriesSafe(hosts, attempts[..|attempts| - 1]);
      AfterSafe(AfterAll(false, Start(hosts), attempts[..|attempts| - 1]), attempts[|attempts| - 1]);
    }
  }

  /** A shared row goes only in an attempt in which a host of the pool's listing confirmed. */
  lemma {:induction false} SharedRowGone(l: Ledger, attempts: seq<Attempt>) returns (k: nat, h: Host)
    requires l.row.Some? && AfterAll(true, l, attempts).row.None?
    ensures k < |attempts| && h in attempts[k].listing && ConfirmedIn(true, l, attempts, k, h)
    decreases |attempts|
  {
    var last := |attempts| - 1;
    var before := AfterAll(true, l, attempts[..last]);
    if before.row.None? {
      k, h := SharedRowGone(l, attempts[..last]);
      assert attempts[..last][..k] == attempts[..k];
    } else {
      k := last;
      h := Member(Answers(attempts[k], true, attempts[k].listing));
    }
  }

  /** During attempt `k` host `h` was contacted and its node confirmed. */
  predicate ConfirmedIn(shared: bool, l: Ledger, attempts: seq<Attempt>, k: nat, h: Host)
    requires k < |attempts|
  {
    var before := AfterAll(shared, l, attempts[..k]);
    Contacts(shared, before, attempts[k]) && h in Answers(attempts[k], shared,
                                                          Targets(shared, attempts[k], before.row.value.hosts))
  }

  /** A host counts as confirmed exactly when its node replied so during some attempt. */
  lemma {:induction false} ConfirmedByReply(shared: bool, l: Ledger, attempts: seq<Attempt>, h: Host)
    ensures h in AfterAll(shared, l, attempts).confirmed <==>
            h in l.confirmed || exists k :: 0 <= k < |attempts| && ConfirmedIn(shared, l, attempts, k, h)
    decreases |attempts|
  {
    if attempts != [] {
      var last := |attempts| - 1;
      var front := attempts[..last];
      ConfirmedByReply(shared, l, front, h);
      assert forall k :: 0 <= k < last ==> front[..k] == attempts[..k];
      assert forall k :: 0 <= k < last ==>
               (ConfirmedIn(shared, l, front, k, h) <==> ConfirmedIn(shared, l, attempts, k, h));
      assert h in AfterAll(shared, l, attempts).confirmed <==>
             h in AfterAll(shared, l, front).confirmed || ConfirmedIn(shared, l, attempts, last, h);
    }
  }

  /** An answer is a known host's confirmation of the very call made to it. */
  lemma AnswerMeans(a: Attempt, shared: bool, targets: seq<Host>, h: Host)
    ensures h in Answers(a, shared, targets) <==>
            exists i ::
                0 <= i < Reached(a, shared, targets, 0) && targets[i] == h && a.known(h) && a.reply(i) == Confirmed
  {
    var n := Reached(a, shared, targets, 0);
    if i :| 0 <= i < n && targets[i] == h && a.known(h) && a.reply(i) == Confirmed {
      assert Confirms(a, targets, i);
    }
  }

  /* ---- what one attempt does, from the answers it gets ---- */

  /** The first `n` lookups work. */
  predicate LooksUp(a: Attempt, n: nat) {
    forall j :: 0 <= j < n ==> !a.lookupFails(j)
  }

  /** The call to the i-th host is made to a known host and confirmed. */
  predicate Acknowledged(a: Attempt, targets: seq<Host>, i: nat) {
    i < |targets| && a.known(targets[i]) && a.reply(i) == Confirmed
  }

  predicate AcknowledgedBy(a: Attempt, targets: seq<Host>, n: nat, h: Host) {
    exists i: nat :: i < n && Acknowledged(a, targets, i) && targets[i] == h
  }

  lemma HeardIs(a: Attempt, targets: seq<Host>, n: nat)
    requires n <= |targets|
    ensures forall h :: h in Heard(a, targets, n) <==> AcknowledgedBy(a, targets, n, h)
  {
    forall h ensures h in Heard(a, targets, n) <==> AcknowledgedBy(a, targets, n, h) {
      if i :| 0 <= i < n && Confirms(a, targets, i) && targets[i] == h {
        assert Acknowledged(a, targets, i);
      }
      if i: nat :| i < n && Acknowledged(a, targets, i) && targets[i] == h {
        assert Confirms(a, targets, i);
      }
    }
  }

  lemma NothingHeard(a: Attempt, targets: seq<Host>, n: nat)
    requires n <= |targets| && forall j: nat :: j < n ==> !Acknowledged(a, targets, j)
    ensures Heard(a, targets, n) == {}
  {
    HeardIs(a, targets, n);
  }

  /** On a shared pool nobody is contacted after the first host that confirms. */
  lemma SharedStopsAtFirst(a: Attempt, targets: seq<Host>, i: nat)
    requires Acknowledged(a, targets, i) && LooksUp(a, i + 1)
    requires forall j: nat :: j < i ==> !Acknowledged(a, targets, j)
    ensures Reached(a, true, targets, 0) == i + 1 && Completes(a, true, targets)
  {
    var r := Reached(a, true, targets, 0);
    HeardIs(a, targets, r);
    HeardIs(a, targets, i + 1);
    assert AcknowledgedBy(a, targets, i + 1, targets[i]);
    assert targets[i] in Heard(a, targets, i + 1) && Enough(a, true, targets, i + 1);
    NothingHeard(a, targets, if r <= i then r else i);
  }

  lemma FirstAcknowledged(a: Attempt, targets: seq<Host>, i: nat) returns (k: nat)
    requires Acknowledged(a, targets, i)
    ensures k <= i && Acknowledged(a, targets, k) && forall j: nat :: j < k ==> !Acknowledged(a, targets, j)
  {
    k := 0;
    while !Acknowledged(a, targets, k)
      invariant k <= i && forall j: nat :: j < k ==> !Acknowledged(a, targets, j)
      decreases i - k
    {
      k := k + 1;
    }
  }

  lemma SharedCompletesIff(a: Attempt, targets: seq<Host>)
    ensures Completes(a, true, targets) <==> exists i: nat :: Acknowledged(a, targets, i) && LooksUp(a, i + 1)
    ensures !Completes(a, true, targets) ==> Answers(a, true, targets) == {}
    ensures Concludes(a, true, targets) <==> Completes(a, true, targets) || LooksUp(a, |targets|)
  {
    var r := Reached(a, true, targets, 0);
    HeardIs(a, targets, r);
    if i: nat :| Acknowledged(a, targets, i) && LooksUp(a, i + 1) {
      var k := FirstAcknowledged(a, targets, i);
      SharedStopsAtFirst(a, targets, k);
    } else {
      forall i: nat | i < r ensures !Acknowledged(a, targets, i) {
        assert LooksUp(a, i + 1);
      }
      NothingHeard(a, targets, r);
    }
  }

  /** What is written of an attempt on a row that is there: everything but the lookups works. */
  predicate Durable(a: Attempt, lists: bool) {
    !a.readFails && !a.writeFails && a.commit != RolledBack && (lists ==> !a.listFails)
  }

  /**
   * An attempt on a shared pool: the row goes iff the first confirmation comes before any
   * failed lookup; without one it is kept with the whole listing; any failure leaves it alone.
   */
  lemma SharedAttempt(l: Ledger, a: Attempt)
    requires l.row.Some?
    ensures After(true, l, a).row ==
            if !Durable(a, true) then l.row
            else if exists i: nat :: Acknowledged(a, a.listing, i) && LooksUp(a, i + 1) then None
            else if LooksUp(a, |a.listing|) then Some(Row(a.listing, l.row.value.attempts + 1))
            else l.row
  {
    SharedCompletesIff(a, a.listing);
    KeepsAll(a.listing);
  }

  /** Every target has confirmed by some call before the first failed lookup. */
  predicate AllAcknowledged(a: Attempt, targets: seq<Host>, n: nat) {
    n <= |targets| && LooksUp(a, n) && forall h :: h in targets ==> AcknowledgedBy(a, targets, n, h)
  }

  lemma LocalCompletesIff(a: Attempt, targets: seq<Host>)
    ensures Completes(a, false, targets) <==> targets != [] && exists n: nat :: AllAcknowledged(a, targets, n)
    ensures Concludes(a, false, targets) <==> Completes(a, false, targets) || LooksUp(a, |targets|)
    ensures Concludes(a, false, targets) && !Completes(a, false, targets) ==> Reached(a, false, targets, 0) == |targets|
  {
    var r := Reached(a, false, targets, 0);
    HeardIs(a, targets, r);
    assert LooksUp(a, r);
    if Completes(a, false, targets) {
      assert targets != [];
      assert AllAcknowledged(a, targets, r);
    }
    if n: nat :| targets != [] && AllAcknowledged(a, targets, n) {
      HeardIs(a, targets, n);
      assert targets[0] in Heard(a, targets, n);
      assert Enough(a, false, targets, n);
      if r < n {
        assert Enough(a, false, targets, r);
      } else {
        assert Heard(a, targets, n) <= Heard(a, targets, r);
      }
    }
  }

  /**
   * An attempt on a local pool: the row goes iff there are targets and each confirms before
   * any failed lookup; otherwise it keeps exactly the targets that did not confirm.
   */
  lemma LocalAttempt(l: Ledger, a: Attempt)
    requires l.row.Some?
    ensures var targets := if l.row.value.hosts == [] then a.listing else l.row.value.hosts;
            var after := After(false, l, a).row;
            if !Durable(a, l.row.value.hosts == []) then after == l.row
            else if targets != [] && exists n: nat :: AllAcknowledged(a, targets, n) then after == None
            else if LooksUp(a, |targets|) then
              && after.Some? && after.value.attempts == l.row.value.attempts + 1
              && forall h :: h in after.value.hosts <==> h in targets && !AcknowledgedBy(a, targets, |targets|, h)
            else after == l.row
  {
    var targets := if l.row.value.hosts == [] then a.listing else l.row.value.hosts;
    LocalCompletesIff(a, targets);
    HeardIs(a, targets, |targets|);
    forall h
      ensures h in Filter(targets, Outside(Answers(a, false, targets))) <==>
              h in targets && h !in Answers(a, false, targets)
    {
      FilterMembers(targets, Outside(Answers(a, false, targets)), h);
    }
  }

  /* ---- which hosts must confirm ---- */

  /** Once hosts are recorded, nothing changes who must confirm. */
  lemma {:induction false} ObligationStays(l: Ledger, attempts: seq<Attempt>)
    requires Safe(l) && l.obliged != {}
    ensures Safe(AfterAll(false, l, attempts)) && AfterAll(false, l, attempts).obliged == l.obliged
    decreases |attempts|
  {
    if attempts != [] {
      ObligationStays(l, attempts[..|attempts| - 1]);
      AfterSafe(AfterAll(false, l, attempts[..|attempts| - 1]), attempts[|attempts| - 1]);
    }
  }

  /** Whatever follows, the row does not go before every host of `listing` has confirmed. */
  ghost predicate Binds(l: Ledger, listing: seq<Host>) {
    forall rest: seq<Attempt> ::
      AfterAll(false, l, rest).row.None? ==> Elements(listing) <= AfterAll(false, l, rest).confirmed
  }

  /** An undisturbed attempt that finds one host, which confirms. */
  function Undisturbed(h: Host): Attempt {
    Attempt(false, false, (i: nat) => false, false, Committed, [h], (g: Host) => true, (i: nat) => Confirmed)
  }

  lemma UndisturbedCompletes(l: Ledger, h: Host)
    requires l.row.Some? && l.row.value.hosts == []
    ensures var l' := After(false, l, Undisturbed(h));
            l'.row == None && l'.confirmed == l.confirmed + {h}
  {
    var a := Undisturbed(h);
    assert Heard(a, [h], 0) == {} && Confirms(a, [h], 0);
    HeardMore(a, [h], 0);
    assert Elements([h]) == {h};
    assert Enough(a, false, [h], 1);
    assert Reached(a, false, [h], 0) == Reached(a, false, [h], 1) == 1;
  }

  lemma ConfirmedBinds(l: Ledger, listing: seq<Host>)
    requires Elements(listing) <= l.confirmed
    ensures Binds(l, listing)
  {
    forall rest: seq<Attempt> ensures l.confirmed <= AfterAll(false, l, rest).confirmed {
      ConfirmedGrows(false, l, rest);
    }
  }

  lemma ObligedBinds(l: Ledger, listing: seq<Host>)
    requires Safe(l) && l.obliged == Elements(listing) != {}
    ensures Binds(l, listing)
  {
    forall rest: seq<Attempt>
      ensures AfterAll(false, l, rest).row.None? ==> Elements(listing) <= AfterAll(false, l, rest).confirmed
    {
      ObligationStays(l, rest);
    }
  }

  lemma UnrecordedForgets(l: Ledger, listing: seq<Host>, h: Host)
    requires l.row.Some? && l.row.value.hosts == [] && h in listing && h !in l.confirmed
    ensures !Binds(l, listing)
  {
    var b := Undisturbed(h + 1);
    UndisturbedCompletes(l, h + 1);
    assert [b][..0] == [] && AfterAll(false, l, []) == l;
    var l' := AfterAll(false, l, [b]);
    assert l' == After(false, l, b);
    assert h in Elements(listing) && h !in l'.confirmed;
  }

  /**
   * With nothing recorded, the hosts an attempt lists must all confirm before the
   * row may go exactly when that attempt lands, or when they had all confirmed anyway.
   */
  lemma FirstListingBindsIff(l: Ledger, a: Attempt)
    requires Safe(l) && l.row.Some? && l.row.value.hosts == []
    ensures Binds(After(false, l, a), a.listing) <==>
            Lands(false, l, a) || Elements(a.listing) <= After(false, l, a).confirmed
  {
    var l' := After(false, l, a);
    AfterSafe(l, a);
    if Elements(a.listing) <= l'.confirmed {
      ConfirmedBinds(l', a.listing);
    } else {
      var h := Member(Elements(a.listing) - l'.confirmed);
      if Lands(false, l, a) {
        ObligedBinds(l', a.listing);
      } else {
        UnrecordedForgets(l', a.listing, h);
      }
    }
  }

  lemma {:induction false} ConfirmedGrows(shared: bool, l: Ledger, attempts: seq<Attempt>)
    ensures l.confirmed <= AfterAll(shared, l, attempts).confirmed
    decreases |attempts|
  {
    if attempts != [] {
      ConfirmedGrows(shared, l, attempts[..|attempts| - 1]);
    }
  }

  /** A concrete run in which host 2 is listed first, never confirms, and is forgotten. */
  lemma RolledBackListingIsForgotten()
    ensures var a := Undisturbed(1).(listing := [1, 2], known := (h: Host) => h == 1, commit := RolledBack);
            var l := AfterAll(false, Start([]), [a, Undisturbed(1)]);
            2 in a.listing && l.row == None && 2 !in l.confirmed
  {
    var a := Undisturbed(1).(listing := [1, 2], known := (h: Host) => h == 1, commit := RolledBack);
    var b := Undisturbed(1);
    var l := After(false, Start([]), a);
    assert [a, b][..1] == [a] && [a][..0] == [];
    assert AfterAll(false, Start([]), []) == Start([]);
    assert AfterAll(false, Start([]), [a]) == l;
    assert AfterAll(false, Start([]), [a, b]) == After(false, l, b);
    assert 2 !in Answers(a, false, [1, 2]);
    UndisturbedCompletes(l, 1);
  }

  /* ---- lists ---- */

  lemma {:induction false} KeepsAll(s: seq<Host>)
    ensures Filter(s, Outside({})) == s
  {
    if s != [] {
      KeepsAll(s[..|s| - 1]);
    }
  }

  lemma {:induction false} FilterTwice(s: seq<Host>, done: set<Host>, h: Host)
    ensures Filter(Filter(s, Outside(done)), Outside({h})) == Filter(s, Outside(done + {h}))
  {
    if s != [] {
      var front, last := s[..|s| - 1], s[|s| - 1];
      FilterTwice(front, done, h);
      if last !in done {
        FilterConcat(Filter(front, Outside(done)), [last], Outside({h}));
      }
    }
  }

  lemma RemainOrDone(s: seq<Host>, done: set<Host>)
    ensures Elements(s) <= Elements(Filter(s, Outside(done))) + done
    ensures Elements(Filter(s, Outside(done))) <= Elements(s)
  {
    forall h ensures h in s && h !in done <==> h in Filter(s, Outside(done)) {
      FilterMembers(s, Outside(done), h);
    }
  }

  lemma NoneRemainIff(s: seq<Host>, done: set<Host>)
    ensures Filter(s, Outside(done)) == [] <==> Elements(s) <= done
  {
    forall h ensures h in s && h !in done <==> h in Filter(s, Outside(done)) {
      FilterMembers(s, Outside(done), h);
    }
    if Filter(s, Outside(done)) != [] {
      assert Filter(s, Outside(done))[0] in Filter(s, Outside(done));
    }
  }
}
