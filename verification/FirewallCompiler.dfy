/**
 * Security-group rules and their translation into iptables chains
 * (qarax-node/src/networking/iptables.rs, sync_vm_firewall), with the policy
 * they mean stated without any chain.
 */
module FirewallCompiler {
  import opened Common
  import opened IptablesKernel
  import opened Validation

  /** A rule as it arrives over gRPC: enumerations are raw integers. */
  datatype FwRule = FwRule(direction: int, protocol: int, cidr: string,
                           portStart: Option<int>, portEnd: Option<int>)

  datatype Interface = Interface(bridge: string, ip: string, rules: seq<FwRule>)

  datatype Direction = Ingress | Egress

  /** Unknown directions fall back to ingress, unknown protocols to any. */
  function DirectionOf(r: FwRule): Direction {
    if r.direction == 1 then Egress else Ingress
  }

  function ProtocolOf(r: FwRule): Proto {
    match r.protocol
    case 1 => Tcp
    case 2 => Udp
    case 3 => Icmp
    case _ => AnyProto
  }

  function PortsOf(r: FwRule): Option<(int, int)> {
    if (ProtocolOf(r) == Tcp || ProtocolOf(r) == Udp) && r.portStart.Some? && r.portEnd.Some?
    then Some((r.portStart.value, r.portEnd.value)) else None
  }

  function Translate(r: FwRule): Rule {
    var cidr := if r.cidr == "" then None else Some(r.cidr);
    ANY.(src := if DirectionOf(r) == Ingress then cidr else None,
         dst := if DirectionOf(r) == Egress then cidr else None,
         proto := ProtocolOf(r), dport := PortsOf(r))
  }

  /** The rules of one direction, in request order. */
  function Lower(rules: seq<FwRule>, d: Direction): seq<Rule> {
    if rules == [] then []
    else
      var last := rules[|rules| - 1];
      Lower(rules[..|rules| - 1], d) + (if DirectionOf(last) == d then [Translate(last)] else [])
  }

  function AllRules(ifs: seq<Interface>): seq<FwRule> {
    if ifs == [] then [] else AllRules(ifs[..|ifs| - 1]) + ifs[|ifs| - 1].rules
  }

  const ESTABLISHED := ANY.(tracked := true)

  predicate HasEgress(rules: seq<FwRule>) {
    exists r :: r in rules && DirectionOf(r) == Egress
  }

  function CompileIn(ifs: seq<Interface>): seq<Rule> {
    [ESTABLISHED] + Lower(AllRules(ifs), Ingress) + [ANY.(target := Drop)]
  }

  function CompileOut(ifs: seq<Interface>): seq<Rule> {
    [ESTABLISHED] + Lower(AllRules(ifs), Egress)
    + [ANY.(target := if HasEgress(AllRules(ifs)) then Drop else Accept)]
  }

  /* ---- the policy ---- */

  /** What one security-group rule lets through, read off the request. */
  predicate Covers(env: Env, r: FwRule, p: Packet) {
    && (r.cidr != "" ==> env.net(r.cidr, if r.direction == 1 then p.dst else p.src))
    && (r.protocol == 1 ==> p.proto == Tcp)
    && (r.protocol == 2 ==> p.proto == Udp)
    && (r.protocol == 3 ==> p.proto == Icmp)
    && (r.protocol in {1, 2} && r.portStart.Some? && r.portEnd.Some?
        ==> r.portStart.value <= p.dport <= r.portEnd.value)
  }

  /** Direction 1 is egress; every other value counts as ingress. */
  predicate SomeRuleCovers(env: Env, rules: seq<FwRule>, d: Direction, p: Packet) {
    exists r :: r in rules && (r.direction == 1 <==> d == Egress) && Covers(env, r, p)
  }

  predicate IngressAllowed(env: Env, ifs: seq<Interface>, p: Packet) {
    p.established || exists i :: 0 <= i < |ifs| && SomeRuleCovers(env, ifs[i].rules, Ingress, p)
  }

  predicate EgressAllowed(env: Env, ifs: seq<Interface>, p: Packet) {
    || p.established
    || (exists i :: 0 <= i < |ifs| && SomeRuleCovers(env, ifs[i].rules, Egress, p))
    || forall i, r :: 0 <= i < |ifs| && r in ifs[i].rules ==> r.direction != 1
  }

  /* ---- compilation preserves the policy ---- */

  lemma TranslateMeans(env: Env, r: FwRule, p: Packet)
    ensures Matches(env, Translate(r), p) <==> Covers(env, r, p)
  {
  }

  /** A lowered list followed by `tail` accepts what some rule covers and defers the rest to `tail`. */
  lemma {:induction false} WalkLowered(env: Env, rules: seq<FwRule>, d: Direction, tail: seq<Rule>, p: Packet)
    ensures Walk(env, map[], Lower(rules, d) + tail, p, 0) ==
            if SomeRuleCovers(env, rules, d, p) then Accepted else Walk(env, map[], tail, p, 0)
    decreases |rules|
  {
    if rules == [] {
      assert Lower(rules, d) + tail == tail;
    } else {
      var front, last := rules[..|rules| - 1], rules[|rules| - 1];
      assert rules == front + [last];
      if DirectionOf(last) == d {
        var tail' := [Translate(last)] + tail;
        assert Lower(rules, d) + tail == Lower(front, d) + tail';
        assert tail'[1..] == tail;
        TranslateMeans(env, last, p);
        WalkLowered(env, front, d, tail', p);
      } else {
        assert Lower(rules, d) == Lower(front, d);
        WalkLowered(env, front, d, tail, p);
      }
    }
  }

  lemma {:induction false} AllRulesMembers(ifs: seq<Interface>, r: FwRule)
    ensures r in AllRules(ifs) <==> exists i :: 0 <= i < |ifs| && r in ifs[i].rules
  {
    if ifs != [] {
      var front := ifs[..|ifs| - 1];
      AllRulesMembers(front, r);
      if r in AllRules(front) {
        var i :| 0 <= i < |front| && r in front[i].rules;
        assert ifs[i] == front[i];
      }
      if i :| 0 <= i < |ifs| && r in ifs[i].rules {
        assert i < |front| ==> front[i] == ifs[i];
      }
    }
  }

  lemma RulesPooled(env: Env, ifs: seq<Interface>, d: Direction, p: Packet)
    ensures SomeRuleCovers(env, AllRules(ifs), d, p) <==>
            exists i :: 0 <= i < |ifs| && SomeRuleCovers(env, ifs[i].rules, d, p)
  {
    forall r ensures r in AllRules(ifs) <==> exists i :: 0 <= i < |ifs| && r in ifs[i].rules {
      AllRulesMembers(ifs, r);
    }
  }

  lemma EgressPooled(ifs: seq<Interface>)
    ensures HasEgress(AllRules(ifs)) <==> exists i, r :: 0 <= i < |ifs| && r in ifs[i].rules && r.direction == 1
  {
    if r :| r in AllRules(ifs) && DirectionOf(r) == Egress {
      AllRulesMembers(ifs, r);
    }
    if i, r :| 0 <= i < |ifs| && r in ifs[i].rules && r.direction == 1 {
      AllRulesMembers(ifs, r);
      assert DirectionOf(r) == Egress;
    }
  }

  lemma WalkFromEstablished(env: Env, body: seq<Rule>, p: Packet)
    ensures Walk(env, map[], [ESTABLISHED] + body, p, 0) ==
            if p.established then Accepted else Walk(env, map[], body, p, 0)
  {
    assert ([ESTABLISHED] + body)[1..] == body;
  }

  lemma IngressMeaning(env: Env, ifs: seq<Interface>, p: Packet)
    ensures Walk(env, map[], CompileIn(ifs), p, 0) ==
            if IngressAllowed(env, ifs, p) then Accepted else Dropped
  {
    var tail := [ANY.(target := Drop)];
    assert CompileIn(ifs) == [ESTABLISHED] + (Lower(AllRules(ifs), Ingress) + tail);
    WalkFromEstablished(env, Lower(AllRules(ifs), Ingress) + tail, p);
    WalkLowered(env, AllRules(ifs), Ingress, tail, p);
    RulesPooled(env, ifs, Ingress, p);
  }

  lemma EgressMeaning(env: Env, ifs: seq<Interface>, p: Packet)
    ensures Walk(env, map[], CompileOut(ifs), p, 0) ==
            if EgressAllowed(env, ifs, p) then Accepted else Dropped
  {
    var tail := [ANY.(target := if HasEgress(AllRules(ifs)) then Drop else Accept)];
    assert CompileOut(ifs) == [ESTABLISHED] + (Lower(AllRules(ifs), Egress) + tail);
    WalkFromEstablished(env, Lower(AllRules(ifs), Egress) + tail, p);
    WalkLowered(env, AllRules(ifs), Egress, tail, p);
    RulesPooled(env, ifs, Egress, p);
    EgressPooled(ifs);
  }

  /** Interface order, rule order and duplicates never change a verdict: only the set of rules counts. */
  lemma OnlyTheRuleSetCounts(env: Env, ifs: seq<Interface>, ifs': seq<Interface>, p: Packet)
    requires forall r :: r in AllRules(ifs) <==> r in AllRules(ifs')
    ensures Walk(env, map[], CompileIn(ifs), p, 0) == Walk(env, map[], CompileIn(ifs'), p, 0)
    ensures Walk(env, map[], CompileOut(ifs), p, 0) == Walk(env, map[], CompileOut(ifs'), p, 0)
  {
    IngressMeaning(env, ifs, p);
    IngressMeaning(env, ifs', p);
    EgressMeaning(env, ifs, p);
    EgressMeaning(env, ifs', p);
    RulesPooled(env, ifs, Ingress, p);
    RulesPooled(env, ifs', Ingress, p);
    RulesPooled(env, ifs, Egress, p);
    RulesPooled(env, ifs', Egress, p);
    EgressPooled(ifs);
    EgressPooled(ifs');
  }

  lemma {:induction false} LoweredNeverJump(rules: seq<FwRule>, d: Direction)
    ensures NoJumps(Lower(rules, d))
  {
    if rules != [] {
      LoweredNeverJump(rules[..|rules| - 1], d);
    }
  }

  lemma CompiledNeverJump(ifs: seq<Interface>)
    ensures NoJumps(CompileIn(ifs)) && NoJumps(CompileOut(ifs))
  {
    LoweredNeverJump(AllRules(ifs), Ingress);
    LoweredNeverJump(AllRules(ifs), Egress);
  }

  /* ---- which requests the agent can install ---- */

  predicate ValidRule(r: FwRule) {
    && (r.cidr == "" || ValidIpv4Cidr(r.cidr))
    && (PortsOf(r).Some? ==> 0 <= PortsOf(r).value.0 <= PortsOf(r).value.1 <= 65535)
  }

  predicate ValidInterface(i: Interface) {
    ValidIfaceName(i.bridge) && ValidIpv4Address(i.ip) && forall r :: r in i.rules ==> ValidRule(r)
  }

  predicate ValidRequest(ifs: seq<Interface>) {
    forall i :: i in ifs ==> ValidInterface(i)
  }
}
