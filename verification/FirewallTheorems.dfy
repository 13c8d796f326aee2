/** What the command-level guarantees mean for packets, for whole runs, and for FORWARD. */
module FirewallTheorems {
  import opened Common
  import opened IptablesKernel
  import opened Validation
  import opened FirewallCompiler
  import opened ForwardText
  import opened FirewallState
  import opened FirewallSync

  /** The verdict of the chain FORWARD jumps to; a missing or empty chain decides nothing. */
  function ParentWalk(env: Env, t: Table, parent: string, p: Packet, fuel: nat): Verdict {
    if parent in t then Walk(env, t, t[parent], p, fuel) else FellThrough
  }

  function NewIngress(env: Env, ifs: seq<Interface>, p: Packet): Verdict {
    if ifs == [] then FellThrough else if IngressAllowed(env, ifs, p) then Accepted else Dropped
  }

  function NewEgress(env: Env, ifs: seq<Interface>, p: Packet): Verdict {
    if ifs == [] then FellThrough else if EgressAllowed(env, ifs, p) then Accepted else Dropped
  }

  lemma EffectiveDecides(env: Env, t: Table, s: Side, p: Packet, fuel: nat)
    requires WellFormed(t, s) && fuel >= 1
    ensures ParentWalk(env, t, s.parent, p, fuel) == Walk(env, map[], Effective(t, s), p, 0)
  {
    if s.parent in t {
      ParentVerdict(env, t, s, p, fuel);
    }
  }

  /** In every table a synchronisation leaves behind, each packet gets the whole old verdict or the whole new one. */
  lemma OldOrNewVerdict(env: Env, base: Table, vm: string, ifs: seq<Interface>, t: Table, p: Packet, fuel: nat)
    requires Ready(base, vm) && Safe(CtxFor(base, vm, ifs), t) && fuel >= 1
    ensures ParentWalk(env, t, InSide(vm).parent, p, fuel) in
            {ParentWalk(env, base, InSide(vm).parent, p, fuel), NewIngress(env, ifs, p)}
    ensures ParentWalk(env, t, OutSide(vm).parent, p, fuel) in
            {ParentWalk(env, base, OutSide(vm).parent, p, fuel), NewEgress(env, ifs, p)}
  {
    EffectiveDecides(env, t, InSide(vm), p, fuel);
    EffectiveDecides(env, t, OutSide(vm), p, fuel);
    EffectiveDecides(env, base, InSide(vm), p, fuel);
    EffectiveDecides(env, base, OutSide(vm), p, fuel);
    IngressMeaning(env, ifs, p);
    EgressMeaning(env, ifs, p);
  }

  /** Once a request is in force, the parents decide exactly as the policy says. */
  lemma InForceVerdict(env: Env, t: Table, vm: string, ifs: seq<Interface>, p: Packet, fuel: nat)
    requires Ready(t, vm) && InForce(t, vm, ifs) && fuel >= 1
    ensures Walk(env, t, t[InSide(vm).parent], p, fuel) == if IngressAllowed(env, ifs, p) then Accepted else Dropped
    ensures Walk(env, t, t[OutSide(vm).parent], p, fuel) == if EgressAllowed(env, ifs, p) then Accepted else Dropped
  {
    EffectiveDecides(env, t, InSide(vm), p, fuel);
    EffectiveDecides(env, t, OutSide(vm), p, fuel);
    IngressMeaning(env, ifs, p);
    EgressMeaning(env, ifs, p);
  }

  /** The rules in force are the initial ones or those of one complete request, in each direction. */
  ghost predicate Complete(base: Table, vm: string, requests: seq<seq<Interface>>, t: Table) {
    && Ready(t, vm)
    && (Effective(t, InSide(vm)) == Effective(base, InSide(vm))
        || exists q :: q in requests && Effective(t, InSide(vm)) == GoalIn(q))
    && (Effective(t, OutSide(vm)) == Effective(base, OutSide(vm))
        || exists q :: q in requests && Effective(t, OutSide(vm)) == GoalOut(q))
  }

  function GoalIn(ifs: seq<Interface>): seq<Rule> {
    if ifs == [] then [] else CompileIn(ifs)
  }

  function GoalOut(ifs: seq<Interface>): seq<Rule> {
    if ifs == [] then [] else CompileOut(ifs)
  }

  lemma CompleteStep(base: Table, vm: string, requests: seq<seq<Interface>>, q: seq<Interface>, u: Table, t: Table)
    requires q in requests && Complete(base, vm, requests, u) && Safe(CtxFor(u, vm, q), t)
    ensures Complete(base, vm, requests, t)
  {
    var ctx := CtxFor(u, vm, q);
    assert OldOrNew(u, t, ctx.ins, ctx.goalIn) && OldOrNew(u, t, ctx.outs, ctx.goalOut);
    assert ctx.goalIn == GoalIn(q) && ctx.goalOut == GoalOut(q);
  }

  ghost predicate AllComplete(base: Table, vm: string, requests: seq<seq<Interface>>, states: seq<Table>) {
    forall t :: t in states ==> Complete(base, vm, requests, t)
  }

  lemma CompleteTrace(base: Table, vm: string, requests: seq<seq<Interface>>, q: seq<Interface>, u: Table,
                      start: nat, earlier: seq<Table>, later: seq<Table>)
    requires q in requests && Complete(base, vm, requests, u) && start <= |earlier| && earlier <= later
    requires AllComplete(base, vm, requests, earlier[start..]) && AllSafe(CtxFor(u, vm, q), later[|earlier|..])
    ensures AllComplete(base, vm, requests, later[start..])
  {
    assert later[start..] == earlier[start..] + later[|earlier|..];
    forall t | t in later[|earlier|..] ensures Complete(base, vm, requests, t) {
      CompleteStep(base, vm, requests, q, u, t);
    }
  }

  /**
   * Any number of synchronisations, each stopping wherever its commands fail:
   * no packet ever meets a half-built rule list, and the last request, if its
   * own commands all succeed, is in force whatever happened before.
   */
  method SyncAll(agent: Agent, vm: string, requests: seq<seq<Interface>>) returns (ok: bool, ghost from: nat)
    requires Ready(agent.table, vm) && requests != []
    modifies agent
    ensures old(agent.trace) <= agent.trace
    ensures AllComplete(old(agent.table), vm, requests, agent.trace[|old(agent.trace)|..])
    ensures Complete(old(agent.table), vm, requests, agent.table)
    ensures ok && requests[|requests| - 1] != [] ==> InForce(agent.table, vm, requests[|requests| - 1])
    ensures from <= agent.tick && (agent.Clean(from, agent.tick) ==> (ok <==> ValidRequest(requests[|requests| - 1])))
  {
    ok, from := false, agent.tick;
    ghost var base, start := agent.table, |agent.trace|;
    for i := 0 to |requests|
      invariant old(agent.trace) <= agent.trace
      invariant AllComplete(base, vm, requests, agent.trace[start..])
      invariant Complete(base, vm, requests, agent.table)
      invariant i > 0 && ok && requests[i - 1] != [] ==> InForce(agent.table, vm, requests[i - 1])
      invariant from <= agent.tick && (i > 0 && agent.Clean(from, agent.tick) ==>
                                       (ok <==> ValidRequest(requests[i - 1])))
    {
      from := agent.tick;
      ghost var before, seen := agent.table, agent.trace;
      ok := agent.Sync(vm, requests[i]);
      CompleteStep(base, vm, requests, requests[i], before, agent.table);
      CompleteTrace(base, vm, requests, requests[i], before, start, seen, agent.trace);
    }
  }

  /**
   * Which requests are valid: every bridge is an interface name, every address and every given CIDR is well
   * formed, and a TCP or UDP rule with both ports has them in order and in range.
   */
  lemma ValidRequestIff(ifs: seq<Interface>)
    ensures ValidRequest(ifs) <==>
            forall f :: f in ifs ==>
              && ValidIfaceName(f.bridge) && ValidIpv4Address(f.ip)
              && forall r :: r in f.rules ==>
                   && (r.cidr != "" ==> ValidIpv4Cidr(r.cidr))
                   && (r.protocol in {1, 2} && r.portStart.Some? && r.portEnd.Some? ==>
                         0 <= r.portStart.value <= r.portEnd.value <= 65535)
  {
  }

  /* ---- FORWARD ---- */

  function ParentOf(inbound: bool, vm: string): string {
    if inbound then InSide(vm).parent else OutSide(vm).parent
  }

  /** The direction's chain names are prefixes of each other exactly when the sanitized identifiers are. */
  lemma ParentsNestIff(inbound: bool, vm: string, other: string)
    ensures ParentOf(inbound, vm) <= ParentOf(inbound, other) <==> SanitizeSuffix(vm, 21) <= SanitizeSuffix(other, 21)
    ensures IsParentName(ParentOf(inbound, vm)) && !(ParentOf(!inbound, vm) <= ParentOf(inbound, other))
  {
    ParentNames(vm);
    assert ParentOf(inbound, vm)[5..] == SanitizeSuffix(vm, 21)
           && ParentOf(inbound, other)[5..] == SanitizeSuffix(other, 21);
    assert ParentOf(inbound, vm)[..5] == ParentOf(inbound, other)[..5];
    assert ParentOf(inbound, other)[4] == (if inbound then 'I' else 'O')
           && ParentOf(!inbound, vm)[4] == (if inbound then 'O' else 'I');
  }

  predicate AllValid(keys: seq<JumpKey>) {
    forall k :: k in keys ==> ValidKey(k)
  }

  /**
   * Reconciling one parent keeps a printed jump exactly when its name does not start
   * with the parent's, or it passes for a desired one.
   */
  lemma KeptIff(inbound: bool, parent: string, keys: seq<JumpKey>, have: JumpKey, target: string)
    requires IsParentName(parent) && IsParentName(target) && ValidKey(have) && AllValid(keys)
    ensures Kept(inbound, parent, keys, LineTokens(FORWARD, JumpRule(inbound, have, target))) <==>
            parent <= target ==> exists k :: k in keys && PassesFor(k, parent, have, target)
  {
    MentionsIsPrefix(inbound, have, target, parent);
    forall k | k in keys
      ensures RuleMatches(LineTokens(FORWARD, JumpRule(inbound, have, target)), JumpArgs(inbound, k, parent)) <==>
              PassesFor(k, parent, have, target)
    {
      TokenSetMeans(inbound, k, have, parent, target);
    }
  }

  /** Nor does the other direction's reconciliation touch it. */
  lemma KeptForIff(inbound: bool, vm: string, keys: seq<JumpKey>, have: JumpKey, other: string)
    requires ValidKey(have) && AllValid(keys)
    ensures KeptFor(vm, keys, JumpRule(inbound, have, ParentOf(inbound, other))) <==>
            SanitizeSuffix(vm, 21) <= SanitizeSuffix(other, 21) ==>
              exists k :: k in keys && PassesFor(k, ParentOf(inbound, vm), have, ParentOf(inbound, other))
  {
    var target := ParentOf(inbound, other);
    ParentNames(vm);
    ParentNames(other);
    ParentsNestIff(inbound, vm, other);
    KeptIff(inbound, ParentOf(inbound, vm), keys, have, target);
    MentionsIsPrefix(inbound, have, target, ParentOf(!inbound, vm));
  }

  /**
   * Whether a stale jump of this VM survives: exactly when some desired jump has its
   * address and a bridge called FORWARD or like the parent chain.
   */
  lemma StaleSurvivesIff(inbound: bool, vm: string, keys: seq<JumpKey>, have: JumpKey)
    requires ValidKey(have) && AllValid(keys) && have !in keys
    ensures KeptFor(vm, keys, JumpRule(inbound, have, ParentOf(inbound, vm))) <==>
            exists k :: k in keys && k.ip == have.ip && (k.bridge == FORWARD || k.bridge == ParentOf(inbound, vm))
  {
    KeptForIff(inbound, vm, keys, have, vm);
    assert forall k :: k in keys && k.ip == have.ip ==> k.bridge != have.bridge;
  }

  /** Every rule about this parent is a plain jump for one validated interface. */
  ghost predicate OwnJumps(inbound: bool, parent: string, rules: seq<Rule>) {
    forall r :: r in rules && Mentions(LineTokens(FORWARD, r), parent)
      ==> exists k :: ValidKey(k) && r == JumpRule(inbound, k, parent)
  }

  predicate HasKey(ifs: seq<Interface>, k: JumpKey) {
    exists f :: f in ifs && k == JumpKey(f.bridge, f.ip)
  }

  /** A jump in the table for no interface of the request, but one that passes for an interface's. */
  predicate Mistaken(inbound: bool, parent: string, ifs: seq<Interface>, before: seq<Rule>, have: JumpKey) {
    && ValidKey(have) && !HasKey(ifs, have) && JumpRule(inbound, have, parent) in before
    && exists f :: f in ifs && f.ip == have.ip && (f.bridge == FORWARD || f.bridge == parent)
  }

  /** The rules that jump to the parent are, as a set, exactly one per interface. */
  ghost predicate Exact(inbound: bool, parent: string, ifs: seq<Interface>, after: seq<Rule>) {
    forall r :: r in after && r.target == Jump(parent) <==>
        exists f :: f in ifs && r == JumpRule(inbound, JumpKey(f.bridge, f.ip), parent)
  }

  lemma HasKeyIff(ifs: seq<Interface>)
    ensures forall k :: k in KeysOf(ifs) <==> HasKey(ifs, k)
  {
    forall k ensures k in KeysOf(ifs) <==> HasKey(ifs, k) {
      KeysMembers(ifs, k);
    }
  }

  lemma KeysAreValid(ifs: seq<Interface>)
    requires ValidRequest(ifs)
    ensures AllValid(KeysOf(ifs))
  {
    KeysValid(ifs);
  }

  lemma JumpRuleInjective(inbound: bool, k: JumpKey, m: JumpKey, parent: string)
    ensures JumpRule(inbound, k, parent) == JumpRule(inbound, m, parent) <==> k == m
  {
    assert (k.ip + "/32")[..|k.ip|] == k.ip && (m.ip + "/32")[..|m.ip|] == m.ip;
    assert |k.ip + "/32"| == |k.ip| + 3 && |m.ip + "/32"| == |m.ip| + 3;
  }

  /** A jump to the parent after a sync is an interface's, or a stale one that was mistaken for an interface's. */
  lemma JumpAfterSync(t: Table, t': Table, vm: string, ifs: seq<Interface>, inbound: bool, r: Rule)
    requires JumpsReconciled(t, t', vm, ifs) && ValidRequest(ifs)
             && OwnJumps(inbound, ParentOf(inbound, vm), t[FORWARD])
    requires r in t'[FORWARD] && r.target == Jump(ParentOf(inbound, vm)) && !ForInterface(vm, ifs, r)
    ensures exists have :: Mistaken(inbound, ParentOf(inbound, vm), ifs, t[FORWARD], have)
  {
    var parent, keys := ParentOf(inbound, vm), KeysOf(ifs);
    KeysAreValid(ifs);
    HasKeyIff(ifs);
    ParentsNestIff(inbound, vm, vm);
    TargetIsMentioned(r, parent);
    DesiredForInterface(vm, ifs, r);
    assert r in t[FORWARD] && KeptFor(vm, keys, r);
    var have :| ValidKey(have) && r == JumpRule(inbound, have, parent);
    assert have !in keys;
    StaleSurvivesIff(inbound, vm, keys, have);
    var k :| k in keys && k.ip == have.ip && (k.bridge == FORWARD || k.bridge == parent);
    assert HasKey(ifs, k);
    assert Mistaken(inbound, parent, ifs, t[FORWARD], have);
  }

  /** One direction's interface jumps are those of the request that jump to its parent. */
  lemma ForInterfaceIn(inbound: bool, vm: string, ifs: seq<Interface>, r: Rule)
    requires r.target == Jump(ParentOf(inbound, vm))
    ensures ForInterface(vm, ifs, r) <==>
            exists f :: f in ifs && r == JumpRule(inbound, JumpKey(f.bridge, f.ip), ParentOf(inbound, vm))
  {
    ParentsNestIff(inbound, vm, vm);
    assert ParentOf(true, vm) != ParentOf(false, vm);
  }

  lemma StaleKept(inbound: bool, vm: string, keys: seq<JumpKey>, have: JumpKey, k: JumpKey)
    requires ValidKey(have) && AllValid(keys) && have !in keys && k in keys
    requires k.ip == have.ip && (k.bridge == FORWARD || k.bridge == ParentOf(inbound, vm))
    ensures KeptFor(vm, keys, JumpRule(inbound, have, ParentOf(inbound, vm)))
  {
    StaleSurvivesIff(inbound, vm, keys, have);
  }

  lemma MistakenKept(vm: string, ifs: seq<Interface>, inbound: bool, before: seq<Rule>, have: JumpKey)
    requires AllValid(KeysOf(ifs)) && Mistaken(inbound, ParentOf(inbound, vm), ifs, before, have)
    ensures KeptFor(vm, KeysOf(ifs), JumpRule(inbound, have, ParentOf(inbound, vm)))
  {
    var f :| f in ifs && f.ip == have.ip && (f.bridge == FORWARD || f.bridge == ParentOf(inbound, vm));
    KeysMembers(ifs, have);
    KeysMembers(ifs, JumpKey(f.bridge, f.ip));
    StaleKept(inbound, vm, KeysOf(ifs), have, JumpKey(f.bridge, f.ip));
  }

  lemma MistakenIsForNobody(inbound: bool, parent: string, ifs: seq<Interface>, have: JumpKey)
    requires !HasKey(ifs, have)
    ensures forall f :: f in ifs ==>
              JumpRule(inbound, have, parent) != JumpRule(inbound, JumpKey(f.bridge, f.ip), parent)
  {
    forall f | f in ifs ensures JumpRule(inbound, have, parent) != JumpRule(inbound, JumpKey(f.bridge, f.ip), parent) {
      JumpRuleInjective(inbound, have, JumpKey(f.bridge, f.ip), parent);
    }
  }

  /**
   * After a sync the jumps to a parent are exactly one per interface iff no stale jump
   * could be mistaken for one of them.
   */
  lemma JumpsExactIff(t: Table, t': Table, vm: string, ifs: seq<Interface>, inbound: bool)
    requires JumpsReconciled(t, t', vm, ifs) && ValidRequest(ifs)
             && OwnJumps(inbound, ParentOf(inbound, vm), t[FORWARD])
    ensures Exact(inbound, ParentOf(inbound, vm), ifs, t'[FORWARD]) <==>
            !exists have :: Mistaken(inbound, ParentOf(inbound, vm), ifs, t[FORWARD], have)
  {
    var parent := ParentOf(inbound, vm);
    if have :| Mistaken(inbound, parent, ifs, t[FORWARD], have) {
      KeysAreValid(ifs);
      MistakenKept(vm, ifs, inbound, t[FORWARD], have);
      MistakenIsForNobody(inbound, parent, ifs, have);
      assert JumpRule(inbound, have, parent).target == Jump(parent);
    } else {
      forall r
        ensures r in t'[FORWARD] && r.target == Jump(parent) <==>
                exists f :: f in ifs && r == JumpRule(inbound, JumpKey(f.bridge, f.ip), parent)
      {
        if r.target == Jump(parent) {
          ForInterfaceIn(inbound, vm, ifs, r);
          if r in t'[FORWARD] && !ForInterface(vm, ifs, r) {
            JumpAfterSync(t, t', vm, ifs, inbound, r);
          }
        }
      }
    }
  }

  /** What a jump selects: packets to the interface's address behind its bridge, or from it. */
  lemma JumpMatches(env: Env, inbound: bool, k: JumpKey, parent: string, p: Packet)
    ensures Matches(env, JumpRule(inbound, k, parent), p) <==>
            if inbound then p.outIf == k.bridge && env.net(k.ip + "/32", p.dst)
            else p.inIf == k.bridge && env.net(k.ip + "/32", p.src)
    ensures JumpRule(inbound, k, parent).target == Jump(parent)
  {
  }

  /** After a successful sync no packet to or from an interface passes FORWARD without meeting a jump to its parent. */
  lemma EveryInterfaceGuarded(env: Env, t: Table, vm: string, ifs: seq<Interface>,
                              f: Interface, inbound: bool, p: Packet)
    requires AllGuarded(t, vm, ifs) && f in ifs
    requires if inbound then p.outIf == f.bridge && env.net(f.ip + "/32", p.dst)
             else p.inIf == f.bridge && env.net(f.ip + "/32", p.src)
    ensures exists r :: r in t[FORWARD] && Matches(env, r, p) && r.target == Jump(ParentOf(inbound, vm))
  {
    JumpMatches(env, inbound, JumpKey(f.bridge, f.ip), ParentOf(inbound, vm), p);
    assert Guarded(t[FORWARD], vm, f);
    assert JumpRule(inbound, JumpKey(f.bridge, f.ip), ParentOf(inbound, vm)) in t[FORWARD];
  }

  /** And they stay plain jumps, so the next sync may rely on it again. */
  lemma OwnJumpsKept(t: Table, t': Table, vm: string, ifs: seq<Interface>, inbound: bool)
    requires JumpsReconciled(t, t', vm, ifs) && ValidRequest(ifs)
             && OwnJumps(inbound, ParentOf(inbound, vm), t[FORWARD])
    ensures OwnJumps(inbound, ParentOf(inbound, vm), t'[FORWARD])
  {
    var parent, keys := ParentOf(inbound, vm), KeysOf(ifs);
    KeysAreValid(ifs);
    ParentNames(vm);
    forall r | r in t'[FORWARD] && Mentions(LineTokens(FORWARD, r), parent)
      ensures exists k :: ValidKey(k) && r == JumpRule(inbound, k, parent)
    {
      DesiredForInterface(vm, ifs, r);
      if Desired(!inbound, ParentOf(!inbound, vm), keys, r) {
        var k :| k in keys && r == JumpRule(!inbound, k, ParentOf(!inbound, vm));
        ParentsNestIff(!inbound, vm, vm);
        MentionsIsPrefix(!inbound, k, ParentOf(!inbound, vm), parent);
      }
    }
  }

  /* ---- what one VM's sync does to another's jumps ---- */

  /** Another VM's jump is not one of this VM's. */
  lemma NotDesiredHere(vm: string, keys: seq<JumpKey>, inbound: bool, other: string, have: JumpKey)
    requires SanitizeSuffix(vm, 21) != SanitizeSuffix(other, 21)
    ensures !DesiredOf(vm, keys, JumpRule(inbound, have, ParentOf(inbound, other)))
  {
    assert ParentOf(inbound, vm)[5..] == SanitizeSuffix(vm, 21)
           && ParentOf(inbound, other)[5..] == SanitizeSuffix(other, 21);
    assert ParentOf(!inbound, vm)[4] != ParentOf(inbound, other)[4];
    assert JumpRule(inbound, have, ParentOf(inbound, other)).target == Jump(ParentOf(inbound, other));
  }

  /**
   * A sync of one VM keeps another VM's jump exactly when its own sanitized
   * identifier is not a prefix of the other's, or the jump passes for one of its own.
   */
  lemma SyncReach(t: Table, t': Table, vm: string, ifs: seq<Interface>, inbound: bool, other: string, have: JumpKey)
    requires JumpsReconciled(t, t', vm, ifs) && ValidRequest(ifs) && ValidKey(have)
    requires SanitizeSuffix(vm, 21) != SanitizeSuffix(other, 21)
             && JumpRule(inbound, have, ParentOf(inbound, other)) in t[FORWARD]
    ensures JumpRule(inbound, have, ParentOf(inbound, other)) in t'[FORWARD] <==>
            SanitizeSuffix(vm, 21) <= SanitizeSuffix(other, 21) ==>
              exists f :: f in ifs && PassesFor(JumpKey(f.bridge, f.ip), ParentOf(inbound, vm), have,
                                                ParentOf(inbound, other))
  {
    KeysAreValid(ifs);
    HasKeyIff(ifs);
    DesiredForInterface(vm, ifs, JumpRule(inbound, have, ParentOf(inbound, other)));
    KeptForIff(inbound, vm, KeysOf(ifs), have, other);
    NotDesiredHere(vm, KeysOf(ifs), inbound, other, have);
  }

  /** Tearing down a VM deletes another VM's jump exactly when its sanitized identifier is a prefix of the other's. */
  lemma TeardownReach(t: Table, t': Table, vm: string, inbound: bool, other: string, have: JumpKey)
    requires Safe(CtxFor(t, vm, []), t') && Gone(CtxFor(t, vm, []), t') && ValidKey(have)
    requires JumpRule(inbound, have, ParentOf(inbound, other)) in t[FORWARD]
    ensures JumpRule(inbound, have, ParentOf(inbound, other)) in t'[FORWARD] <==>
              !(SanitizeSuffix(vm, 21) <= SanitizeSuffix(other, 21))
  {
    var r, ctx := JumpRule(inbound, have, ParentOf(inbound, other)), CtxFor(t, vm, []);
    ParentNames(vm);
    ParentNames(other);
    ParentsNestIff(inbound, vm, other);
    MentionsIsPrefix(inbound, have, ParentOf(inbound, other), ParentOf(inbound, vm));
    MentionsIsPrefix(inbound, have, ParentOf(inbound, other), ParentOf(!inbound, vm));
    assert Unrelated(ctx)(r) <==> !(SanitizeSuffix(vm, 21) <= SanitizeSuffix(other, 21));
    FilterMembers(t[FORWARD], Unrelated(ctx), r);
    FilterMembers(t'[FORWARD], Unrelated(ctx), r);
  }

  /* ---- concrete inputs ---- */

  /** The address d.d.d.d, behind the bridge of that name. */
  function At(bridge: string, d: char): JumpKey {
    JumpKey(bridge, [d, '.', d, '.', d, '.', d])
  }

  lemma AtValid(bridge: string, d: char)
    requires IsDigit(d) && ValidIfaceName(bridge)
    ensures ValidKey(At(bridge, d))
  {
    ShortAddress(d, d, d, d);
  }

  lemma BridgeNames()
    ensures ValidIfaceName(FORWARD) && ValidIfaceName("b") && FORWARD != "b"
  {
    assert forall i :: 0 <= i < |FORWARD| ==> 'A' <= FORWARD[i] <= 'Z';
    AsciiLength(FORWARD);
    AsciiLength("b");
  }

  lemma SurvivorExample(inbound: bool, vm: string, want: JumpKey, have: JumpKey)
    requires ValidKey(want) && ValidKey(have) && want.bridge == FORWARD != have.bridge && want.ip == have.ip
    ensures KeptFor(vm, [want], JumpRule(inbound, have, ParentOf(inbound, vm)))
    ensures !Desired(inbound, ParentOf(inbound, vm), [want], JumpRule(inbound, have, ParentOf(inbound, vm)))
  {
    assert want in [want] && forall k :: k in [want] ==> k == want;
    StaleSurvivesIff(inbound, vm, [want], have);
    JumpRuleInjective(inbound, want, have, ParentOf(inbound, vm));
  }

  /** A stale jump that survives: address 1.1.1.1 moved from bridge b to a bridge called FORWARD. */
  lemma StaleJumpSurvives(inbound: bool, vm: string)
    ensures KeptFor(vm, [At(FORWARD, '1')], JumpRule(inbound, At("b", '1'), ParentOf(inbound, vm)))
    ensures !Desired(inbound, ParentOf(inbound, vm), [At(FORWARD, '1')],
                     JumpRule(inbound, At("b", '1'), ParentOf(inbound, vm)))
  {
    BridgeNames();
    AtValid(FORWARD, '1');
    AtValid("b", '1');
    SurvivorExample(inbound, vm, At(FORWARD, '1'), At("b", '1'));
  }

  lemma ShortIdentifiers()
    ensures SanitizeSuffix("1", 21) == "1" && SanitizeSuffix("12", 21) == "12" && "1" <= "12"
  {
    assert "1"[1..] == "" && "12"[1..] == "2" && "2"[1..] == "";
    assert SanitizeSuffix("2", 20) == "2" by { assert SanitizeSuffix("", 19) == ""; }
  }

  lemma PrefixLoses(inbound: bool, vm: string, other: string, keys: seq<JumpKey>, have: JumpKey)
    requires AllValid(keys) && ValidKey(have) && SanitizeSuffix(vm, 21) < SanitizeSuffix(other, 21)
             && have.bridge != ParentOf(inbound, vm)
    ensures !KeptFor(vm, keys, JumpRule(inbound, have, ParentOf(inbound, other)))
  {
    KeptForIff(inbound, vm, keys, have, other);
    assert |ParentOf(inbound, vm)| < |ParentOf(inbound, other)|;
  }

  /** Identifier 1 is a prefix of identifier 12, so every sync of the first VM takes away the jumps of the second. */
  lemma PrefixVmLosesJumps(inbound: bool, keys: seq<JumpKey>)
    requires AllValid(keys)
    ensures !KeptFor("1", keys, JumpRule(inbound, At("b", '1'), ParentOf(inbound, "12")))
  {
    BridgeNames();
    AtValid("b", '1');
    ShortIdentifiers();
    assert |ParentOf(inbound, "1")| == 5 + |SanitizeSuffix("1", 21)|;
    PrefixLoses(inbound, "1", "12", keys, At("b", '1'));
  }
}
