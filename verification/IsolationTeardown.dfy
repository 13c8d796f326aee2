/**
 * Taking a bridge's isolation chains down again, and whose rules that reaches
 * (qarax-node/src/networking/iptables.rs, teardown_network_isolation).
 */
module IsolationTeardown {
  import opened Common
  import opened IptablesKernel
  import opened Validation
  import opened ForwardText
  import opened FirewallSync
  import opened NetworkIsolation
  import NatExemption

  /* ---- the deletion loop ---- */

  lemma ThinnedByOne(t: Table, k: nat, quiet: Rule -> bool)
    requires FORWARD in t && k < |t[FORWARD]| && !quiet(t[FORWARD][k])
    ensures Thinned(quiet, t, t[FORWARD := t[FORWARD][..k] + t[FORWARD][k + 1..]])
  {
    var rules := t[FORWARD];
    assert rules == rules[..k] + [rules[k]] + rules[k + 1..];
    FilterSkips(rules[..k], rules[k], rules[k + 1..], quiet);
  }

  lemma AnySpecDeleted(t: Table, x: Rule, quiet: Rule -> bool)
    requires FORWARD in t && RejectsLine(quiet, x)
    ensures var next := Apply(t, DeleteSpec(FORWARD, Print(x)));
            next.Some? ==> Thinned(quiet, t, next.value)
  {
    if Apply(t, DeleteSpec(FORWARD, Print(x))).Some? {
      var k := SpecSelects(t, Print(x));
      assert LineTokens(FORWARD, t[FORWARD][k]) == LineTokens(FORWARD, x);
      ThinnedByOne(t, k, quiet);
    }
  }

  lemma SpecAt(t: Table, rules: seq<Rule>, i: nat, quiet: Rule -> bool)
    requires FORWARD in t && i < |rules| && RejectsLine(quiet, rules[i])
    requires t[FORWARD] == Filter(rules[..i], quiet) + rules[i..]
    ensures Apply(t, DeleteSpec(FORWARD, Print(rules[i]))) ==
            Some(t[FORWARD := Filter(rules[..i + 1], quiet) + rules[i + 1..]])
  {
    var kept, x, rest, spec := Filter(rules[..i], quiet), rules[i], rules[i + 1..], Print(rules[i]);
    FilterStep(rules, i, quiet);
    forall j | 0 <= j < |kept| ensures !Prints(spec)(kept[j]) {
      FilterMembers(rules[..i], quiet, kept[j]);
      assert Prints(spec)(kept[j]) ==> LineTokens(FORWARD, kept[j]) == LineTokens(FORWARD, x);
    }
    SpecDeleted(t, kept, x, rest, spec);
  }

  /** One printed line that mentions the chain is deleted: the first rule that prints so goes. */
  method DropLine(host: Isolator, rules: seq<Rule>, i: nat, ghost quiet: Rule -> bool, ghost clean: bool)
    requires FORWARD in host.table && i < |rules| && RejectsLine(quiet, rules[i])
    requires clean ==> host.table[FORWARD] == Filter(rules[..i], quiet) + rules[i..]
    modifies host
    ensures host.tick == old(host.tick) + 1
    ensures host.table == old(host.table) || Thinned(quiet, old(host.table), host.table)
    ensures clean && host.faults(old(host.tick)) == NoFault ==>
              host.table[FORWARD] == Filter(rules[..i + 1], quiet) + rules[i + 1..]
  {
    AnySpecDeleted(host.table, rules[i], quiet);
    if clean {
      SpecAt(host.table, rules, i, quiet);
    }
    var status := host.Run(DeleteSpec(FORWARD, Print(rules[i])));
  }

  method DropIfMentioned(host: Isolator, c: string, rules: seq<Rule>, i: nat, ghost quiet: Rule -> bool,
                         ghost clean: bool)
    requires FORWARD in host.table && i < |rules| && Listens(quiet, c)
    requires clean ==> host.table[FORWARD] == Filter(rules[..i], quiet) + rules[i..]
    modifies host
    ensures host.tick >= old(host.tick)
    ensures host.table == old(host.table) || Thinned(quiet, old(host.table), host.table)
    ensures clean && host.Clean(old(host.tick), host.tick) ==>
              host.table[FORWARD] == Filter(rules[..i + 1], quiet) + rules[i + 1..]
  {
    FilterStep(rules, i, quiet);
    var mentioned := IsMentioned(c, rules[i], quiet);
    if mentioned {
      DropLine(host, rules, i, quiet, clean);
    }
  }

  /** The first part of remove_forward_rules_referencing, which ignores failed deletions. */
  method DropJumps(host: Isolator, c: string, ghost quiet: Rule -> bool) returns (ok: bool)
    requires FORWARD in host.table && Listens(quiet, c)
    modifies host
    ensures host.tick >= old(host.tick) && Thinned(quiet, old(host.table), host.table)
    ensures host.Clean(old(host.tick), host.tick) ==>
              ok && host.table[FORWARD] == Filter(old(host.table)[FORWARD], quiet)
  {
    ok := host.faults(host.tick) == NoFault;
    host.tick := host.tick + 1;
    var rules := host.table[FORWARD];
    assert Filter([], quiet) + rules == rules;
    if !ok {
      return;
    }
    for i := 0 to |rules|
      invariant host.tick > old(host.tick) && Thinned(quiet, old(host.table), host.table)
      invariant host.Clean(old(host.tick), host.tick) ==>
                  host.table[FORWARD] == Filter(rules[..i], quiet) + rules[i..]
    {
      ghost var before, from := host.table, host.tick;
      DropIfMentioned(host, c, rules, i, quiet, host.Clean(old(host.tick), host.tick));
      ThinnedTwice(quiet, old(host.table), before, host.table);
      assert host.Clean(old(host.tick), host.tick) ==> host.Clean(old(host.tick), from) && host.Clean(from, host.tick);
    }
    assert rules[..|rules|] == rules && rules[|rules|..] == [];
  }

  /** The chain is absent or empty. */
  predicate Idle(t: Table, c: string) {
    c in t ==> t[c] == []
  }

  /** `-F` then `-X`, ignoring both results. */
  method FlushDelete(host: Isolator, c: string)
    requires FORWARD in host.table && c != FORWARD
    modifies host
    ensures host.tick >= old(host.tick) && SameExcept(c, old(host.table), host.table)
    ensures host.Clean(old(host.tick), host.tick) ==> Idle(host.table, c) && Gone(host.table, c)
  {
    var _ := host.Run(Flush(c));
    var _ := host.Run(DeleteChain(c));
  }

  /** remove_forward_rules_referencing. */
  method RemoveReferences(host: Isolator, c: string, ghost quiet: Rule -> bool) returns (ok: bool)
    requires FORWARD in host.table && c != FORWARD && Listens(quiet, c)
    modifies host
    ensures host.tick >= old(host.tick) && FORWARD in host.table
    ensures forall d :: d != FORWARD && d != c ==> SameChain(old(host.table), host.table, d)
    ensures forall r :: r in host.table[FORWARD] ==> r in old(host.table)[FORWARD]
    ensures Filter(host.table[FORWARD], quiet) == Filter(old(host.table)[FORWARD], quiet)
    ensures host.Clean(old(host.tick), host.tick) ==>
              ok && host.table[FORWARD] == Filter(old(host.table)[FORWARD], quiet) && Idle(host.table, c)
  {
    ok := DropJumps(host, c, quiet);
    if ok {
      FlushDelete(host, c);
    }
  }

  /** The chain is absent, or some rule refers to it so that it cannot be deleted. */
  predicate Gone(t: Table, c: string) {
    c in t ==> Referenced(t, c)
  }

  /** delete_chain_if_exists. */
  method DeleteIfExists(host: Isolator, c: string) returns (ok: bool)
    requires FORWARD in host.table && c != FORWARD
    modifies host
    ensures host.tick >= old(host.tick) && SameExcept(c, old(host.table), host.table)
    ensures host.Clean(old(host.tick), host.tick) ==> ok && Gone(host.table, c)
  {
    ok := host.faults(host.tick) == NoFault;
    host.tick := host.tick + 1;
    if ok && c in host.table {
      FlushDelete(host, c);
    }
  }

  /* ---- the whole teardown ---- */

  predicate Owns(bridge: string, c: string) {
    c == ChainName(true, bridge) || c == ChainName(false, bridge)
  }

  /** The rule mentions neither of the bridge's chains. */
  predicate Bystander(bridge: string, r: Rule) {
    && !Mentions(LineTokens(FORWARD, r), ChainName(true, bridge))
    && !Mentions(LineTokens(FORWARD, r), ChainName(false, bridge))
  }

  /** No other chain is touched, and FORWARD only loses rules that mention one of the bridge's chains. */
  ghost predicate Loosened(before: Table, after: Table, bridge: string) {
    && FORWARD in before && FORWARD in after
    && (forall c :: c != FORWARD && c != ChainName(true, bridge) && c != ChainName(false, bridge) ==>
          SameChain(before, after, c))
    && (forall r :: r in after[FORWARD] ==> r in before[FORWARD])
    && (forall r :: r in before[FORWARD] && Bystander(bridge, r) ==> r in after[FORWARD])
  }

  /** Both chains are unhooked, and gone unless some other chain refers to them. */
  ghost predicate TornDown(before: Table, after: Table, bridge: string) {
    && FORWARD in before && FORWARD in after
    && (forall r :: r in after[FORWARD] <==> r in before[FORWARD] && Bystander(bridge, r))
    && Gone(after, ChainName(true, bridge)) && Gone(after, ChainName(false, bridge))
  }

  /** teardown_network_isolation. */
  method Teardown(host: Isolator, bridge: string) returns (ok: bool)
    requires FORWARD in host.table
    modifies host
    ensures host.tick >= old(host.tick) && Loosened(old(host.table), host.table, bridge)
    ensures !ValidIfaceName(bridge) ==> !ok && host.table == old(host.table)
    ensures ValidIfaceName(bridge) && host.Clean(old(host.tick), host.tick) ==>
              ok && TornDown(old(host.table), host.table, bridge)
  {
    ok := ValidIfaceName(bridge);
    if !ok {
      return;
    }
    ok := UnhookBoth(host, bridge);
    ghost var mid := host.table;
    if ok {
      ok := DeleteBoth(host, bridge);
    }
    forall c | c != FORWARD && c != ChainName(true, bridge) && c != ChainName(false, bridge)
      ensures SameChain(old(host.table), host.table, c)
    {
      assert !Owns(bridge, c) && SameChain(old(host.table), mid, c);
    }
  }

  lemma QuietMembers(rules: seq<Rule>, after: seq<Rule>, quiet: Rule -> bool, c: string)
    requires Listens(quiet, c) && Filter(after, quiet) == Filter(rules, quiet)
    ensures forall r :: !Mentions(LineTokens(FORWARD, r), c) ==> (r in after <==> r in rules)
    ensures after == Filter(rules, quiet) ==> forall r :: r in after ==> !Mentions(LineTokens(FORWARD, r), c)
  {
    forall r ensures r in Filter(after, quiet) <==> r in after && quiet(r) { FilterMembers(after, quiet, r); }
    forall r ensures r in Filter(rules, quiet) <==> r in rules && quiet(r) { FilterMembers(rules, quiet, r); }
    assert forall r :: quiet(r) <==> !Mentions(LineTokens(FORWARD, r), c);
  }

  method Unhook(host: Isolator, c: string) returns (ok: bool)
    requires FORWARD in host.table && c != FORWARD
    modifies host
    ensures host.tick >= old(host.tick) && FORWARD in host.table
    ensures forall d :: d != FORWARD && d != c ==> SameChain(old(host.table), host.table, d)
    ensures forall r :: r in host.table[FORWARD] ==> r in old(host.table)[FORWARD]
    ensures forall r :: r in old(host.table)[FORWARD] && !Mentions(LineTokens(FORWARD, r), c) ==>
              r in host.table[FORWARD]
    ensures host.Clean(old(host.tick), host.tick) ==>
              ok && Idle(host.table, c) && forall r :: r in host.table[FORWARD] ==> !Mentions(LineTokens(FORWARD, r), c)
  {
    ghost var quiet := Silent(c);
    assert Listens(quiet, c);
    ok := RemoveReferences(host, c, quiet);
    QuietMembers(old(host.table)[FORWARD], host.table[FORWARD], quiet, c);
  }

  method UnhookBoth(host: Isolator, bridge: string) returns (ok: bool)
    requires FORWARD in host.table
    modifies host
    ensures host.tick >= old(host.tick) && Loosened(old(host.table), host.table, bridge)
    ensures host.Clean(old(host.tick), host.tick) ==>
              && ok && Idle(host.table, ChainName(true, bridge)) && Idle(host.table, ChainName(false, bridge))
              && forall r :: r in host.table[FORWARD] ==> Bystander(bridge, r)
  {
    ChainNamesApart(bridge);
    ok := Unhook(host, ChainName(true, bridge));
    ghost var mid := host.table;
    if ok {
      ok := Unhook(host, ChainName(false, bridge));
      assert SameChain(mid, host.table, ChainName(true, bridge));
    }
    forall c | c != FORWARD && !Owns(bridge, c) ensures SameChain(old(host.table), host.table, c) {
      assert SameChain(old(host.table), mid, c) && (mid == host.table || SameChain(mid, host.table, c));
    }
  }

  method DeleteBoth(host: Isolator, bridge: string) returns (ok: bool)
    requires FORWARD in host.table
    modifies host
    ensures host.tick >= old(host.tick) && FORWARD in host.table && host.table[FORWARD] == old(host.table)[FORWARD]
    ensures forall c :: !Owns(bridge, c) ==> SameChain(old(host.table), host.table, c)
    ensures host.Clean(old(host.tick), host.tick) ==> ok
    ensures host.Clean(old(host.tick), host.tick) && Idle(old(host.table), ChainName(false, bridge)) ==>
              Gone(host.table, ChainName(true, bridge)) && Gone(host.table, ChainName(false, bridge))
  {
    ChainNamesApart(bridge);
    var out, back := ChainName(true, bridge), ChainName(false, bridge);
    ok := DeleteIfExists(host, out);
    if ok {
      ghost var mid := host.table;
      ok := DeleteIfExists(host, back);
      if Idle(mid, back) && Gone(mid, out) {
        StillReferenced(mid, host.table, out, back);
      }
    }
  }

  lemma StillReferenced(t: Table, t': Table, c: string, d: string)
    requires Gone(t, c) && Idle(t, d) && SameExcept(d, t, t') && c != d
    ensures Gone(t', c)
  {
    if c in t' {
      var e :| e in t && Targets(t[e], c);
      assert e in t' && Targets(t'[e], c);
    }
  }

  /* ---- whose jumps that deletes ---- */

  /** The tokens of a printed isolation jump. */
  function HookLine(flag: string, bridge: string, jump: string, target: string): seq<string> {
    ["-A", FORWARD, flag, bridge, jump, target]
  }

  lemma PrintHook(outbound: bool, bridge: string)
    ensures LineTokens(FORWARD, Jumps(outbound, bridge)) ==
            HookLine(if outbound then "-i" else "-o", bridge, "-j", ChainName(outbound, bridge))
  {
  }

  /** In such a line only the target can start with Q behind a token that ends in -j, the bridge being one. */
  lemma HookMentions(add: string, forward: string, flag: string, bridge: string, jump: string, target: string,
                     parent: string)
    requires parent != "" && EndsWith(jump, "-j")
    requires !(parent <= forward) && !(parent <= flag) && !(parent <= jump) && !EndsWith(flag, "-j")
    ensures JumpPair([add, forward, flag, bridge, jump, target], parent) <==> parent <= target
  {
    var tokens := [add, forward, flag, bridge, jump, target];
    assert tokens[4] == jump && tokens[4 + 1] == target;
    assert parent <= target ==> EndsWith(tokens[4], "-j") && parent <= tokens[4 + 1];
    assert tokens[0 + 1] == forward && tokens[1 + 1] == flag && tokens[3 + 1] == jump && tokens[2] == flag;
  }

  lemma NotPrefix(p: string, t: string)
    requires p != "" && t != "" && p[0] != t[0]
    ensures !(p <= t)
  {
  }

  lemma HookPrefixes(parent: string)
    requires IsParentName(parent)
    ensures !(parent <= FORWARD) && !(parent <= "-i") && !(parent <= "-o") && !(parent <= "-j")
  {
    assert FORWARD[0] == 'F' && "-i"[0] == '-' && "-o"[0] == '-' && "-j"[0] == '-';
    NotPrefix(parent, FORWARD);
    NotPrefix(parent, "-i");
    NotPrefix(parent, "-o");
    NotPrefix(parent, "-j");
  }

  lemma HookEnds()
    ensures !EndsWith("-i", "-j") && !EndsWith("-o", "-j") && EndsWith("-j", "-j")
  {
    assert "-i"[1] == 'i' && "-o"[1] == 'o' && "-j"[1] == 'j';
  }

  lemma HookSpaces()
    ensures SpaceFree(FORWARD) && SpaceFree("-A") && SpaceFree("-i") && SpaceFree("-o") && SpaceFree("-j")
  {
  }

  lemma ChainIsParentName(outbound: bool, bridge: string)
    ensures IsParentName(ChainName(outbound, bridge)) && SpaceFree(ChainName(outbound, bridge))
  {
    assert forall c :: c in "QXNETO" || c in "QXNETI" ==> IsAlnum(c);
  }

  lemma HookTokensSpaceFree(outbound: bool, flag: string, bridge: string, target: string)
    requires (flag == "-i" || flag == "-o") && SpaceFree(bridge) && SpaceFree(target)
    ensures forall t :: t in HookLine(flag, bridge, "-j", target) ==> SpaceFree(t)
  {
    HookSpaces();
  }

  lemma HookMentionsIff(outbound: bool, bridge: string, parent: string)
    requires SpaceFree(bridge) && IsParentName(parent) && SpaceFree(parent)
    ensures Mentions(LineTokens(FORWARD, Jumps(outbound, bridge)), parent) <==> parent <= ChainName(outbound, bridge)
  {
    var flag, target := if outbound then "-i" else "-o", ChainName(outbound, bridge);
    PrintHook(outbound, bridge);
    ChainIsParentName(outbound, bridge);
    HookTokensSpaceFree(outbound, flag, bridge, target);
    ContainsJump(HookLine(flag, bridge, "-j", target), parent);
    HookPrefixes(parent);
    HookEnds();
    HookMentions("-A", FORWARD, flag, bridge, "-j", target, parent);
  }

  lemma ChainsNestIff(outbound: bool, bridge: string, other: string)
    ensures ChainName(outbound, bridge) <= ChainName(outbound, other) <==>
              SanitizeSuffix(bridge, 20) <= SanitizeSuffix(other, 20)
    ensures !(ChainName(!outbound, bridge) <= ChainName(outbound, other))
  {
    assert ChainName(outbound, bridge)[6..] == SanitizeSuffix(bridge, 20)
           && ChainName(outbound, other)[6..] == SanitizeSuffix(other, 20);
    assert ChainName(outbound, bridge)[..6] == ChainName(outbound, other)[..6];
    assert ChainName(outbound, other)[5] == (if outbound then 'O' else 'I')
           && ChainName(!outbound, bridge)[5] == (if outbound then 'I' else 'O');
  }

  /**
   * Taking one bridge's isolation down unhooks another's exactly when its sanitized name
   * is a prefix of the other's.
   */
  lemma TeardownReach(before: Table, after: Table, bridge: string, outbound: bool, other: string)
    requires TornDown(before, after, bridge) && ValidIfaceName(other) && Jumps(outbound, other) in before[FORWARD]
    ensures Jumps(outbound, other) in after[FORWARD] <==> !(SanitizeSuffix(bridge, 20) <= SanitizeSuffix(other, 20))
  {
    assert SpaceFree(other);
    ChainIsParentName(true, bridge);
    ChainIsParentName(false, bridge);
    HookMentionsIff(outbound, other, ChainName(true, bridge));
    HookMentionsIff(outbound, other, ChainName(false, bridge));
    ChainsNestIff(outbound, bridge, other);
    assert outbound || !outbound;
  }

  lemma ExampleSuffixes()
    ensures SanitizeSuffix("br1", 20) <= SanitizeSuffix("br12", 20)
  {
    assert "1" == "r1"[1..] && "r1" == "br1"[1..] && "2" == "12"[1..] && "12" == "r12"[1..] && "r12" == "br12"[1..];
    assert SanitizeSuffix("1", 18) == "1" && SanitizeSuffix("12", 18) == "12";
    assert SanitizeSuffix("r1", 19) == "r1" && SanitizeSuffix("r12", 19) == "r12";
    assert SanitizeSuffix("br1", 20) == "br1" && SanitizeSuffix("br12", 20) == "br12";
  }

  /** Taking down br1 leaves br12 without isolation in either direction. */
  lemma PrefixBridgeUnhooked(before: Table, after: Table, outbound: bool)
    requires TornDown(before, after, "br1") && Hooked(before, "br12")
    ensures Jumps(outbound, "br12") in before[FORWARD] && Jumps(outbound, "br12") !in after[FORWARD]
  {
    NatExemption.ExampleBridges();
    ExampleSuffixes();
    TeardownReach(before, after, "br1", outbound, "br12");
  }
}
