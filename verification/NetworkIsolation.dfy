/**
 * The per-bridge chains that keep networks of different VPCs apart
 * (qarax-node/src/networking/iptables.rs, sync_network_isolation).
 */
module NetworkIsolation {
  import opened Common
  import opened IptablesKernel
  import opened Validation
  import opened ForwardText
  import opened FirewallSync
  import NetworkPolicy
  import NatExemption

  function ChainName(outbound: bool, bridge: string): string {
    (if outbound then "QXNETO" else "QXNETI") + SanitizeSuffix(bridge, 20)
  }

  lemma ChainNamesApart(bridge: string)
    ensures ChainName(true, bridge) != ChainName(false, bridge)
    ensures ChainName(true, bridge) != FORWARD && ChainName(false, bridge) != FORWARD
  {
    assert ChainName(true, bridge)[5] == 'O' && ChainName(false, bridge)[5] == 'I';
    assert ChainName(true, bridge)[0] == 'Q' && ChainName(false, bridge)[0] == 'Q';
  }

  /** Two bridges share their chains exactly when their names have the same first 20 letters and digits. */
  lemma ChainsSharedIff(bridge: string, other: string)
    ensures (forall outbound :: ChainName(outbound, bridge) == ChainName(outbound, other)) <==> Shares(bridge, other)
    ensures Shares(bridge, other) <==> ChainName(true, bridge) == ChainName(true, other)
    ensures ChainName(true, bridge) != ChainName(false, other)
  {
    assert ChainName(true, bridge)[6..] == SanitizeSuffix(bridge, 20)
           && ChainName(true, other)[6..] == SanitizeSuffix(other, 20);
    assert ChainName(false, bridge)[6..] == SanitizeSuffix(bridge, 20)
           && ChainName(false, other)[6..] == SanitizeSuffix(other, 20);
    assert ChainName(true, bridge)[5] == 'O' && ChainName(false, other)[5] == 'I';
  }

  predicate Shares(bridge: string, other: string) {
    SanitizeSuffix(bridge, 20) == SanitizeSuffix(other, 20)
  }

  /** Two valid bridge names that differ only in punctuation. */
  lemma BridgesMayShareChains()
    ensures ValidIfaceName("br-a") && ValidIfaceName("bra")
    ensures Shares("br-a", "bra")
  {
    assert forall i :: 0 <= i < 4 ==> !IsWhitespace("br-a"[i]);
    assert SanitizeSuffix("a", 18) == "a" by { assert SanitizeSuffix("", 17) == ""; }
    assert "a" == "-a"[1..] && "-a" == "r-a"[1..] && "r-a" == "br-a"[1..] && "a" == "ra"[1..] && "ra" == "bra"[1..];
    assert SanitizeSuffix("-a", 18) == "a";
    assert SanitizeSuffix("r-a", 19) == "ra" == SanitizeSuffix("ra", 19);
    assert SanitizeSuffix("br-a", 20) == "bra" == SanitizeSuffix("bra", 20);
  }

  function Jumps(outbound: bool, bridge: string): Rule {
    var rule := ANY.(target := Jump(ChainName(outbound, bridge)));
    if outbound then rule.(inIf := Some(bridge)) else rule.(outIf := Some(bridge))
  }

  function DropFar(outbound: bool, subnet: string): Rule {
    if outbound then ANY.(dst := Some(subnet), target := Drop) else ANY.(src := Some(subnet), target := Drop)
  }

  function Drops(outbound: bool, blocked: seq<string>): seq<Rule> {
    seq(|blocked|, i requires 0 <= i < |blocked| => DropFar(outbound, blocked[i]))
  }

  function Wanted(outbound: bool, blocked: seq<string>): seq<Rule> {
    Drops(outbound, blocked) + [ANY.(target := Return)]
  }

  /* ---- what the chains mean ---- */

  /** The far end of a packet leaving through the bridge is its destination, of one coming back its source. */
  predicate FarEndIn(env: Env, outbound: bool, blocked: seq<string>, p: Packet) {
    exists s :: s in blocked && env.net(s, if outbound then p.dst else p.src)
  }

  lemma {:induction false} DropsMeaning(env: Env, t: Table, outbound: bool, blocked: seq<string>, tail: seq<Rule>,
                                        p: Packet, fuel: nat)
    ensures Walk(env, t, Drops(outbound, blocked) + tail, p, fuel) ==
            if FarEndIn(env, outbound, blocked, p) then Dropped else Walk(env, t, tail, p, fuel)
    decreases |blocked|
  {
    var rules := Drops(outbound, blocked) + tail;
    if blocked == [] {
      assert rules == tail;
    } else {
      assert rules[0] == DropFar(outbound, blocked[0]);
      assert rules[1..] == Drops(outbound, blocked[1..]) + tail;
      DropsMeaning(env, t, outbound, blocked[1..], tail, p, fuel);
      var far := if outbound then p.dst else p.src;
      assert Matches(env, rules[0], p) <==> env.net(blocked[0], far);
      assert FarEndIn(env, outbound, blocked, p) <==>
               env.net(blocked[0], far) || FarEndIn(env, outbound, blocked[1..], p) by {
        assert forall s :: s in blocked <==> s == blocked[0] || s in blocked[1..];
        assert blocked[0] in blocked;
      }
    }
  }

  /** What a bridge's jumps select: packets coming in through it, and packets going out through it. */
  lemma JumpMatches(env: Env, outbound: bool, bridge: string, p: Packet)
    ensures Matches(env, Jumps(outbound, bridge), p) <==> (if outbound then p.inIf else p.outIf) == bridge
    ensures Jumps(outbound, bridge).target == Jump(ChainName(outbound, bridge))
  {
  }

  /** A finished chain drops a packet exactly when its far end is blocked and returns the rest, in any table. */
  lemma WantedMeaning(env: Env, t: Table, outbound: bool, blocked: seq<string>, p: Packet, fuel: nat)
    ensures Walk(env, t, Wanted(outbound, blocked), p, fuel) ==
            if FarEndIn(env, outbound, blocked, p) then Dropped else FellThrough
  {
    DropsMeaning(env, t, outbound, blocked, [ANY.(target := Return)], p, fuel);
  }

  /**
   * A chain that holds the first n rules drops exactly the packets whose far end is in
   * one of the first n blocked subnets; emptied by a new sync, it lets every packet pass.
   */
  lemma HalfBuiltMeaning(env: Env, t: Table, outbound: bool, blocked: seq<string>, n: nat, p: Packet, fuel: nat)
    requires n <= |blocked|
    ensures Walk(env, t, Wanted(outbound, blocked)[..n], p, fuel) ==
            if FarEndIn(env, outbound, blocked[..n], p) then Dropped else FellThrough
  {
    assert Wanted(outbound, blocked)[..n] == Drops(outbound, blocked[..n]) + [];
    DropsMeaning(env, t, outbound, blocked[..n], [], p, fuel);
  }

  /** A chain left half built never drops more than the finished one would. */
  lemma HalfBuiltIsLenient(env: Env, t: Table, outbound: bool, blocked: seq<string>, rules: seq<Rule>, p: Packet,
                           fuel: nat)
    requires rules <= Wanted(outbound, blocked)
    ensures Walk(env, t, rules, p, fuel) in {FellThrough, Walk(env, t, Wanted(outbound, blocked), p, fuel)}
  {
    WantedMeaning(env, t, outbound, blocked, p, fuel);
    if |rules| <= |blocked| {
      assert rules == Wanted(outbound, blocked)[..|rules|];
      HalfBuiltMeaning(env, t, outbound, blocked, |rules|, p, fuel);
      assert forall s :: s in blocked[..|rules|] ==> s in blocked;
    } else {
      assert rules == Wanted(outbound, blocked);
    }
  }

  /* ---- installing them ---- */

  /** Each isolation chain is as it was or a prefix of the wanted one; FORWARD only gained the two jumps. */
  ghost predicate Between(base: Table, t: Table, bridge: string, blocked: seq<string>) {
    && FORWARD in base && FORWARD in t
    && (forall c :: c !in {FORWARD, ChainName(true, bridge), ChainName(false, bridge)} ==>
          (c in t <==> c in base) && (c in t ==> t[c] == base[c]))
    && Progress(base, t, ChainName(true, bridge), Wanted(true, blocked))
    && Progress(base, t, ChainName(false, bridge), Wanted(false, blocked))
    && OnlyPrepended(base[FORWARD], t[FORWARD], Jumps(true, bridge), Jumps(false, bridge))
  }

  ghost predicate Progress(base: Table, t: Table, c: string, wanted: seq<Rule>) {
    if c in t then t[c] <= wanted || (c in base && t[c] == base[c]) else c !in base
  }

  ghost predicate OnlyPrepended(before: seq<Rule>, after: seq<Rule>, j: Rule, k: Rule) {
    exists n :: 0 <= n <= |after| && after[n..] == before && forall i :: 0 <= i < n ==> after[i] == j || after[i] == k
  }

  lemma PrependOne(before: seq<Rule>, after: seq<Rule>, j: Rule, k: Rule, r: Rule)
    requires OnlyPrepended(before, after, j, k) && (r == j || r == k)
    ensures OnlyPrepended(before, [r] + after, j, k)
  {
    var n :| 0 <= n <= |after| && after[n..] == before && forall i :: 0 <= i < n ==> after[i] == j || after[i] == k;
    assert ([r] + after)[n + 1..] == after[n..];
  }

  class Isolator {
    var table: Table
    var tick: nat
    const faults: nat -> Fault
    const postrouting: NatExemption.NatChain

    ghost predicate Clean(from: nat, to: nat) {
      forall i :: from <= i < to ==> faults(i) == NoFault
    }

    constructor (t: Table, faults: nat -> Fault, n: NatExemption.NatChain)
      ensures table == t && tick == 0 && this.faults == faults && postrouting == n
    {
      table, tick := t, 0;
      this.faults, postrouting := faults, n;
    }

    method Run(cmd: Command) returns (status: Status)
      modifies this
      ensures tick == old(tick) + 1 && Outcome(old(table), cmd, faults(old(tick)), table, status)
    {
      var (t, reported) := Execute(table, cmd, faults(tick));
      table, status, tick := t, reported, tick + 1;
    }

    method EnsureChain(outbound: bool, ghost base: Table, bridge: string, ghost blocked: seq<string>) returns (ok: bool)
      requires Between(base, table, bridge, blocked)
      modifies this
      ensures Between(base, table, bridge, blocked) && tick >= old(tick) && old(table).Keys <= table.Keys
      ensures ok ==> ChainName(outbound, bridge) in table
      ensures Clean(old(tick), tick) ==> ok
    {
      ChainNamesApart(bridge);
      var status := Run(NewChain(ChainName(outbound, bridge)));
      ok := status != Failed;
    }

    method EnsureJump(outbound: bool, ghost base: Table, bridge: string, ghost blocked: seq<string>) returns (ok: bool)
      requires Between(base, table, bridge, blocked) && ChainName(outbound, bridge) in table
      modifies this
      ensures Between(base, table, bridge, blocked) && tick >= old(tick) && table.Keys == old(table).Keys
      ensures table[FORWARD] == old(table)[FORWARD] || table[FORWARD] == [Jumps(outbound, bridge)] + old(table)[FORWARD]
      ensures ok ==> Jumps(outbound, bridge) in table[FORWARD]
      ensures Clean(old(tick), tick) ==> ok
    {
      ChainNamesApart(bridge);
      var status := Run(Check(FORWARD, Jumps(outbound, bridge)));
      if status == Done {
        return true;
      }
      PrependOne(base[FORWARD], table[FORWARD], Jumps(true, bridge), Jumps(false, bridge), Jumps(outbound, bridge));
      status := Run(InsertFirst(FORWARD, Jumps(outbound, bridge)));
      ok := status == Done;
    }

    method FlushChain(outbound: bool, ghost base: Table, bridge: string, ghost blocked: seq<string>) returns (ok: bool)
      requires Between(base, table, bridge, blocked) && ChainName(outbound, bridge) in table
      modifies this
      ensures Between(base, table, bridge, blocked) && tick >= old(tick)
      ensures table == old(table) || table == old(table)[ChainName(outbound, bridge) := []]
      ensures ok ==> table == old(table)[ChainName(outbound, bridge) := []]
      ensures Clean(old(tick), tick) ==> ok
    {
      ChainNamesApart(bridge);
      var status := Run(Flush(ChainName(outbound, bridge)));
      ok := status == Done;
    }

    /** Appends the next wanted rule of one chain. */
    method AppendNext(outbound: bool, ghost base: Table, bridge: string, ghost blocked: seq<string>, r: Rule,
                      ghost n: nat) returns (ok: bool)
      requires Between(base, table, bridge, blocked) && ChainName(outbound, bridge) in table
      requires n < |Wanted(outbound, blocked)| && r == Wanted(outbound, blocked)[n]
      requires table[ChainName(outbound, bridge)] == Wanted(outbound, blocked)[..n]
      modifies this
      ensures Between(base, table, bridge, blocked) && tick >= old(tick)
      ensures table == old(table)
              || table == old(table)[ChainName(outbound, bridge) := Wanted(outbound, blocked)[..n + 1]]
      ensures ok ==> table == old(table)[ChainName(outbound, bridge) := Wanted(outbound, blocked)[..n + 1]]
      ensures Clean(old(tick), tick) ==> ok
    {
      ChainNamesApart(bridge);
      assert Wanted(outbound, blocked)[..n + 1] == Wanted(outbound, blocked)[..n] + [r];
      var status := Run(Append(ChainName(outbound, bridge), r));
      ok := status == Done;
    }

    method Hook(ghost base: Table, bridge: string, ghost blocked: seq<string>) returns (ok: bool)
      requires Between(base, table, bridge, blocked)
      modifies this
      ensures Between(base, table, bridge, blocked) && tick >= old(tick)
      ensures ok ==> Hooked(table, bridge)
      ensures Clean(old(tick), tick) ==> ok
    {
      ok := EnsureChain(true, base, bridge, blocked);
      if ok {
        ok := EnsureChain(false, base, bridge, blocked);
      }
      if ok {
        ok := EnsureJump(true, base, bridge, blocked);
      }
      if ok {
        ok := EnsureJump(false, base, bridge, blocked);
      }
    }

    /** Creates both chains, hooks them into FORWARD and empties them. */
    method Open(ghost base: Table, bridge: string, ghost blocked: seq<string>) returns (ok: bool)
      requires Between(base, table, bridge, blocked)
      modifies this
      ensures Between(base, table, bridge, blocked) && tick >= old(tick)
      ensures ok ==> Hooked(table, bridge) && Level(table, bridge, blocked, 0)
      ensures Clean(old(tick), tick) ==> ok
    {
      ChainNamesApart(bridge);
      ok := Hook(base, bridge, blocked);
      if ok {
        ok := FlushChain(true, base, bridge, blocked);
      }
      if ok {
        ok := FlushChain(false, base, bridge, blocked);
      }
    }

    /** Appends the n-th rule to both chains. */
    method AppendBoth(ghost base: Table, bridge: string, blocked: seq<string>, n: nat) returns (ok: bool)
      requires Between(base, table, bridge, blocked) && Hooked(table, bridge) && Level(table, bridge, blocked, n)
      requires n <= |blocked|
      modifies this
      ensures Between(base, table, bridge, blocked) && tick >= old(tick)
      ensures ok ==> Hooked(table, bridge) && Level(table, bridge, blocked, n + 1)
      ensures Clean(old(tick), tick) ==> ok
    {
      ChainNamesApart(bridge);
      ok := AppendNext(true, base, bridge, blocked,
                       if n < |blocked| then DropFar(true, blocked[n]) else ANY.(target := Return), n);
      if ok {
        ok := AppendNext(false, base, bridge, blocked,
                         if n < |blocked| then DropFar(false, blocked[n]) else ANY.(target := Return), n);
      }
    }

    method Install(ghost base: Table, bridge: string, blocked: seq<string>) returns (ok: bool)
      requires Between(base, table, bridge, blocked)
      modifies this
      ensures Between(base, table, bridge, blocked)
      ensures ok ==> Hooked(table, bridge) && Holds(table, bridge, blocked)
      ensures tick >= old(tick)
      ensures Clean(old(tick), tick) ==> ok
    {
      ok := Open(base, bridge, blocked);
      var n := 0;
      while ok && n <= |blocked|
        invariant Between(base, table, bridge, blocked) && tick >= old(tick) && n <= |blocked| + 1
        invariant ok ==> Hooked(table, bridge) && Level(table, bridge, blocked, n)
        invariant Clean(old(tick), tick) ==> ok
        decreases |blocked| + 1 - n
      {
        ok := AppendBoth(base, bridge, blocked, n);
        n := n + 1;
      }
      if ok {
        assert forall outbound :: Wanted(outbound, blocked)[..n] == Wanted(outbound, blocked);
      }
    }

    /**
     * sync_network_isolation. Success installs exactly the wanted chains and
     * exemptions; any failure leaves every other chain alone and the two chains old
     * or half built; input that fails validation changes nothing.
     */
    method Sync(e: Entry) returns (ok: bool)
      requires FORWARD in table
      modifies this, postrouting
      ensures Between(old(table), table, e.bridge, e.blocked) && tick >= old(tick)
              && postrouting.tick >= old(postrouting.tick)
      ensures ok ==> Hooked(table, e.bridge) && Holds(table, e.bridge, e.blocked)
      ensures ok ==> NatExemption.Exempted(e.bridge, e.subnet, e.exempt, old(postrouting.rules), postrouting.rules)
      ensures ok ==> forall x :: x in e.exempt ==> NatExemption.ExemptLine(e.bridge, e.subnet, x) in postrouting.rules
      ensures !Checked(e) ==> !ok && table == old(table) && postrouting.rules == old(postrouting.rules)
      ensures Clean(old(tick), tick) && postrouting.Clean(old(postrouting.tick), postrouting.tick) ==>
                (ok <==> ValidIfaceName(e.bridge) && ValidIpv4Cidr(e.subnet)
                         && forall s :: s in e.blocked || s in e.exempt ==> ValidIpv4Cidr(s))
      ensures Checked(e) && Clean(old(tick), tick) && postrouting.Clean(old(postrouting.tick), postrouting.tick) ==> ok
    {
      ghost var base := table;
      assert OnlyPrepended(base[FORWARD], base[FORWARD], Jumps(true, e.bridge), Jumps(false, e.bridge)) by {
        assert base[FORWARD][0..] == base[FORWARD];
      }
      if !Checked(e) {
        return false;
      }
      ok := Install(base, e.bridge, e.blocked);
      if ok {
        ok := postrouting.Sync(e.bridge, e.subnet, e.exempt);
      }
    }

    /**
     * sync_host_network_isolation_for_host: one sync after the other, stopping at
     * the first failure. Afterwards the chains of each bridge hold the list of the
     * last bridge that shares them.
     */
    method SyncHost(entries: seq<Entry>) returns (ok: bool)
      requires FORWARD in table
      modifies this, postrouting
      ensures FORWARD in table && tick >= old(tick) && postrouting.tick >= old(postrouting.tick)
      ensures ok ==> Installed(table, entries)
      ensures forall c :: c != FORWARD && !Owned(entries, c) ==> SameChain(old(table), table, c)
      ensures AllChecked(entries) && Clean(old(tick), tick) ==>
                postrouting.Clean(old(postrouting.tick), postrouting.tick) ==> ok
    {
      ok := true;
      for i := 0 to |entries|
        invariant FORWARD in table && tick >= old(tick) && postrouting.tick >= old(postrouting.tick)
        invariant ok && Installed(table, entries[..i])
        invariant forall c :: c != FORWARD && !Owned(entries, c) ==> SameChain(old(table), table, c)
      {
        ghost var before := table;
        ok := Sync(entries[i]);
        OthersKept(before, table, entries, i);
        if !ok {
          return;
        }
        OneMoreInstalled(before, table, entries, i);
      }
      assert entries[..|entries|] == entries;
    }
  }

  /* ---- the bridges of one host ---- */

  /** One attached network: its bridge, its subnet, the subnets it may not reach and those exempt from NAT. */
  datatype Entry = Entry(bridge: string, subnet: string, blocked: seq<string>, exempt: seq<string>)

  predicate AllChecked(entries: seq<Entry>) {
    forall e :: e in entries ==> Checked(e)
  }

  predicate Owned(entries: seq<Entry>, c: string) {
    exists e :: e in entries && (c == ChainName(true, e.bridge) || c == ChainName(false, e.bridge))
  }

  predicate SameChain(t: Table, t': Table, c: string) {
    (c in t <==> c in t') && (c in t ==> t[c] == t'[c])
  }

  /** The last entry whose bridge shares its chains with entry `i`. */
  function LastSharing(entries: seq<Entry>, i: nat): (j: nat)
    requires i < |entries|
    ensures i <= j < |entries| && Shares(entries[i].bridge, entries[j].bridge)
    ensures forall k :: j < k < |entries| ==> !Shares(entries[i].bridge, entries[k].bridge)
  {
    var last := |entries| - 1;
    if Shares(entries[i].bridge, entries[last].bridge) then last else LastSharing(entries[..last], i)
  }

  /** Every bridge is hooked into FORWARD and its chains hold the list of the last bridge that shares them. */
  ghost predicate Installed(t: Table, entries: seq<Entry>) {
    FORWARD in t && forall i :: 0 <= i < |entries| ==> InstalledAt(t, entries, i)
  }

  ghost predicate InstalledAt(t: Table, entries: seq<Entry>, i: nat)
    requires i < |entries|
  {
    Hooked(t, entries[i].bridge) && Holds(t, entries[i].bridge, entries[LastSharing(entries, i)].blocked)
  }

  ghost predicate Holds(t: Table, bridge: string, blocked: seq<string>) {
    forall outbound :: ChainName(outbound, bridge) in t && t[ChainName(outbound, bridge)] == Wanted(outbound, blocked)
  }

  lemma OthersKept(before: Table, after: Table, entries: seq<Entry>, i: nat)
    requires i < |entries| && Between(before, after, entries[i].bridge, entries[i].blocked)
    ensures forall c :: c != FORWARD && !Owned(entries, c) ==> SameChain(before, after, c)
  {
    forall c | c != FORWARD && !Owned(entries, c) ensures SameChain(before, after, c) {
      assert entries[i] in entries;
    }
  }

  lemma HookKept(before: Table, after: Table, bridge: string, other: string, blocked: seq<string>)
    requires Between(before, after, bridge, blocked) && Hooked(before, other)
    ensures Hooked(after, other)
  {
    ChainNamesApart(other);
    forall outbound ensures ChainName(outbound, other) in after {
      assert Progress(before, after, ChainName(true, bridge), Wanted(true, blocked));
      assert Progress(before, after, ChainName(false, bridge), Wanted(false, blocked));
    }
    forall r | r in before[FORWARD] ensures r in after[FORWARD] {
      PrependedKeeps(before[FORWARD], after[FORWARD], Jumps(true, bridge), Jumps(false, bridge), r);
    }
  }

  lemma PrependedKeeps(before: seq<Rule>, after: seq<Rule>, j: Rule, k: Rule, r: Rule)
    requires OnlyPrepended(before, after, j, k) && r in before
    ensures r in after
  {
    var n :| 0 <= n <= |after| && after[n..] == before && forall i :: 0 <= i < n ==> after[i] == j || after[i] == k;
    assert r in after[n..];
  }

  lemma ListKept(before: Table, after: Table, bridge: string, other: string, blocked: seq<string>, list: seq<string>)
    requires Between(before, after, bridge, blocked) && Holds(before, other, list) && !Shares(bridge, other)
    ensures Holds(after, other, list)
  {
    ChainNamesApart(other);
    ChainsSharedIff(bridge, other);
    ChainsSharedIff(other, bridge);
    forall outbound
      ensures ChainName(outbound, other) in after && after[ChainName(outbound, other)] == Wanted(outbound, list)
    {
      assert ChainName(outbound, other) !in {FORWARD, ChainName(true, bridge), ChainName(false, bridge)} by {
        assert ChainName(false, bridge)[6..] == SanitizeSuffix(bridge, 20)
               && ChainName(false, other)[6..] == SanitizeSuffix(other, 20);
      }
    }
  }

  /** An entry whose chains the next bridge does not share stays as it was. */
  lemma EarlierInstalled(before: Table, after: Table, entries: seq<Entry>, i: nat, k: nat)
    requires k < i < |entries| && InstalledAt(before, entries[..i], k)
             && Between(before, after, entries[i].bridge, entries[i].blocked)
    requires !Shares(entries[k].bridge, entries[i].bridge)
    ensures InstalledAt(after, entries[..i + 1], k)
  {
    var front, now := entries[..i], entries[..i + 1];
    assert now[..i] == front && now[i] == entries[i];
    assert LastSharing(now, k) == LastSharing(front, k);
    HookKept(before, after, entries[i].bridge, entries[k].bridge, entries[i].blocked);
    ListKept(before, after, entries[i].bridge, entries[k].bridge, entries[i].blocked,
             front[LastSharing(front, k)].blocked);
  }

  /** An entry whose chains it does share now has the new list. */
  lemma SharedInstalled(before: Table, after: Table, entries: seq<Entry>, i: nat, k: nat)
    requires k <= i < |entries| && (k < i ==> Hooked(before, entries[k].bridge))
             && Between(before, after, entries[i].bridge, entries[i].blocked)
    requires Hooked(after, entries[i].bridge) && Holds(after, entries[i].bridge, entries[i].blocked)
    requires Shares(entries[k].bridge, entries[i].bridge)
    ensures InstalledAt(after, entries[..i + 1], k)
  {
    var now := entries[..i + 1];
    assert LastSharing(now, k) == i;
    if k < i {
      HookKept(before, after, entries[i].bridge, entries[k].bridge, entries[i].blocked);
    }
    ChainsSharedIff(entries[k].bridge, entries[i].bridge);
  }

  lemma OneMoreInstalled(before: Table, after: Table, entries: seq<Entry>, i: nat)
    requires i < |entries| && Installed(before, entries[..i])
             && Between(before, after, entries[i].bridge, entries[i].blocked)
    requires Hooked(after, entries[i].bridge) && Holds(after, entries[i].bridge, entries[i].blocked)
    ensures Installed(after, entries[..i + 1])
  {
    var now := entries[..i + 1];
    forall k | 0 <= k < |now| ensures InstalledAt(after, now, k) {
      assert k < i ==> InstalledAt(before, entries[..i], k);
      if Shares(entries[k].bridge, entries[i].bridge) {
        SharedInstalled(before, after, entries, i, k);
      } else {
        EarlierInstalled(before, after, entries, i, k);
      }
    }
  }

  lemma WantedInjective(outbound: bool, a: seq<string>, b: seq<string>)
    ensures Wanted(outbound, a) == Wanted(outbound, b) <==> a == b
  {
    if Wanted(outbound, a) == Wanted(outbound, b) {
      assert |Wanted(outbound, a)| == |a| + 1 && |Wanted(outbound, b)| == |b| + 1;
      forall i | 0 <= i < |a| ensures a[i] == b[i] {
        assert Wanted(outbound, a)[i] == DropFar(outbound, a[i]) && Wanted(outbound, b)[i] == DropFar(outbound, b[i]);
      }
    }
  }

  /** A bridge keeps its own list exactly when the last bridge that shares its chains has the same one. */
  lemma OwnListIff(t: Table, entries: seq<Entry>, i: nat)
    requires Installed(t, entries) && i < |entries|
    ensures Holds(t, entries[i].bridge, entries[i].blocked) <==>
              entries[LastSharing(entries, i)].blocked == entries[i].blocked
  {
    assert InstalledAt(t, entries, i);
    WantedInjective(true, entries[i].blocked, entries[LastSharing(entries, i)].blocked);
    if Holds(t, entries[i].bridge, entries[i].blocked) {
      assert t[ChainName(true, entries[i].bridge)] == Wanted(true, entries[i].blocked);
    }
  }

  /** The entries are what the control plane computes for the networks attached to the host, in its order. */
  ghost predicate Computed(entries: seq<Entry>, cluster: seq<NetworkPolicy.Attachment>, host: NetworkPolicy.Host) {
    var local := NetworkPolicy.NetworksOn(cluster, host);
    && |entries| == |local|
    && forall i :: 0 <= i < |local| ==>
         && entries[i].bridge == local[i].1 && entries[i].subnet == local[i].0.subnet
         && Elements(entries[i].blocked) == NetworkPolicy.BlockedSubnets(local[i].0, host, local, cluster)
         && Elements(entries[i].exempt) == NetworkPolicy.NatExempt(local[i].0, cluster)
  }

  lemma OtherVpcIsBlocked(cluster: seq<NetworkPolicy.Attachment>, host: NetworkPolicy.Host, entries: seq<Entry>, i: nat,
                          b: NetworkPolicy.Attachment)
    requires NetworkPolicy.IdsIdentify(cluster) && Computed(entries, cluster, host) && i < |entries|
    requires b in cluster && b.network.vpc.Some?
    requires var n := NetworkPolicy.NetworksOn(cluster, host)[i].0; n.vpc.Some? && n.vpc != b.network.vpc
    ensures b.network.subnet in entries[i].blocked
  {
    var local := NetworkPolicy.NetworksOn(cluster, host);
    NetworkPolicy.NetworksOnMembers(cluster, host, local[i].0);
    assert local[i] in local;
    var a :| a in cluster && a.host == host && a.network == local[i].0;
    NetworkPolicy.NamedVpcsBlockEachOther(cluster, a, b, host, host);
    assert b.network.subnet in Elements(entries[i].blocked);
  }

  /**
   * After a host's whole sync, a packet from a network to one of another named VPC,
   * or back, is dropped by the network's own chains, provided the last bridge that
   * shares them has the same list.
   */
  lemma HostKeepsVpcsApart(env: Env, t: Table, cluster: seq<NetworkPolicy.Attachment>, host: NetworkPolicy.Host,
                           entries: seq<Entry>,
                           i: nat, b: NetworkPolicy.Attachment, p: Packet, fuel: nat)
    requires NetworkPolicy.IdsIdentify(cluster) && Computed(entries, cluster, host) && Installed(t, entries)
    requires i < |entries| && b in cluster && b.network.vpc.Some?
    requires var n := NetworkPolicy.NetworksOn(cluster, host)[i].0; n.vpc.Some? && n.vpc != b.network.vpc
    requires entries[LastSharing(entries, i)].blocked == entries[i].blocked
    ensures Hooked(t, entries[i].bridge)
    ensures env.net(b.network.subnet, p.dst) ==> Walk(env, t, t[ChainName(true, entries[i].bridge)], p, fuel) == Dropped
    ensures env.net(b.network.subnet, p.src) ==>
              Walk(env, t, t[ChainName(false, entries[i].bridge)], p, fuel) == Dropped
  {
    OtherVpcIsBlocked(cluster, host, entries, i, b);
    assert InstalledAt(t, entries, i);
    BlockedIsDropped(env, t, entries[i].bridge, entries[i].blocked, b.network.subnet, p, fuel);
  }

  lemma BlockedIsDropped(env: Env, t: Table, bridge: string, blocked: seq<string>, subnet: string, p: Packet, fuel: nat)
    requires Holds(t, bridge, blocked) && subnet in blocked
    ensures env.net(subnet, p.dst) ==> Walk(env, t, t[ChainName(true, bridge)], p, fuel) == Dropped
    ensures env.net(subnet, p.src) ==> Walk(env, t, t[ChainName(false, bridge)], p, fuel) == Dropped
  {
    WantedMeaning(env, t, true, blocked, p, fuel);
    WantedMeaning(env, t, false, blocked, p, fuel);
  }

  /** Networks of one VPC must not reach the same subnets, so sharing chains among them is harmless. */
  lemma SameVpcSameBlocked(cluster: seq<NetworkPolicy.Attachment>, host: NetworkPolicy.Host, m: NetworkPolicy.Network,
                           n: NetworkPolicy.Network)
    requires m.vpc.Some? && m.vpc == n.vpc && NetworkPolicy.IdsIdentify(cluster)
    requires (exists a :: a in cluster && a.network == m) && exists b :: b in cluster && b.network == n
    ensures NetworkPolicy.BlockedSubnets(m, host, NetworkPolicy.NetworksOn(cluster, host), cluster) ==
            NetworkPolicy.BlockedSubnets(n, host, NetworkPolicy.NetworksOn(cluster, host), cluster)
  {
    NetworkPolicy.BlockedInOnePass(m, host, cluster);
    NetworkPolicy.BlockedInOnePass(n, host, cluster);
  }

  /**
   * A later bridge outside every VPC empties the chains it shares: what the first
   * bridge had to drop then passes them.
   */
  lemma LaterBridgeUnblocks(env: Env, t: Table, p: Packet, fuel: nat)
    requires Installed(t, [Entry("br-a", "10.1.0.0/24", ["10.2.0.0/24"], []), Entry("bra", "10.3.0.0/24", [], [])])
    requires env.net("10.2.0.0/24", p.dst)
    ensures ChainName(true, "br-a") in t && Walk(env, t, t[ChainName(true, "br-a")], p, fuel) == FellThrough
    ensures Walk(env, t, Wanted(true, ["10.2.0.0/24"]), p, fuel) == Dropped
  {
    var entries := [Entry("br-a", "10.1.0.0/24", ["10.2.0.0/24"], []), Entry("bra", "10.3.0.0/24", [], [])];
    BridgesMayShareChains();
    assert LastSharing(entries, 0) == 1;
    assert InstalledAt(t, entries, 0);
    WantedMeaning(env, t, true, [], p, fuel);
    WantedMeaning(env, t, true, ["10.2.0.0/24"], p, fuel);
    assert "10.2.0.0/24" in ["10.2.0.0/24"];
  }

  predicate Checked(e: Entry) {
    && ValidIfaceName(e.bridge) && ValidIpv4Cidr(e.subnet)
    && (forall s :: s in e.blocked ==> ValidIpv4Cidr(s)) && (forall s :: s in e.exempt ==> ValidIpv4Cidr(s))
  }

  ghost predicate Hooked(t: Table, bridge: string) {
    && FORWARD in t && (forall outbound :: ChainName(outbound, bridge) in t)
    && Jumps(true, bridge) in t[FORWARD] && Jumps(false, bridge) in t[FORWARD]
  }

  /** Both chains hold the first n wanted rules. */
  ghost predicate Level(t: Table, bridge: string, blocked: seq<string>, n: nat) {
    && ChainName(true, bridge) in t && ChainName(false, bridge) in t && n <= |blocked| + 1
    && t[ChainName(true, bridge)] == Wanted(true, blocked)[..n]
      && t[ChainName(false, bridge)] == Wanted(false, blocked)[..n]
  }
}
