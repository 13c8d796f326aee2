/**
 * Exempting a VPC's other subnets from masquerading: the POSTROUTING chain is
 * reconciled by its printed text (qarax-node/src/networking/iptables.rs,
 * sync_nat_exemption_rules).
 */
module NatExemption {
  import opened Common
  import opened IptablesKernel
  import opened Validation
  import opened ForwardText
  import opened FirewallSync

  /** A rule of POSTROUTING is its printed specification. */
  type Line = seq<string>

  function ExemptLine(bridge: string, local: string, exempt: string): Line {
    ["-s", local, "-d", exempt, "!", "-o", bridge, "-j", "RETURN"]
  }

  function Printed(r: Line): seq<string> {
    ["-A", "POSTROUTING"] + r
  }

  /** The line passes for an exemption of this bridge and subnet. */
  predicate LooksOurs(bridge: string, local: string, r: Line) {
    var text := Join(Printed(r));
    Contains(text, "-s " + local) && Contains(text, "! -o " + bridge) && Contains(text, "-j RETURN")
  }

  predicate KeptLine(bridge: string, local: string, exempts: seq<string>, r: Line) {
    LooksOurs(bridge, local, r) ==> exists e :: e in exempts && RuleMatches(Printed(r), ExemptLine(bridge, local, e))
  }

  predicate DesiredLine(bridge: string, local: string, exempts: seq<string>, r: Line) {
    exists e :: e in exempts && r == ExemptLine(bridge, local, e)
  }

  function KeepsLine(bridge: string, local: string, exempts: seq<string>): Line -> bool {
    (r: Line) => KeptLine(bridge, local, exempts, r)
  }

  /** New exemptions in front, and of the rest exactly the lines that are kept, in their order. */
  ghost predicate Exempted(bridge: string, local: string, exempts: seq<string>, before: seq<Line>, after: seq<Line>) {
    exists added: seq<Line> ::
      && (forall r :: r in added ==> DesiredLine(bridge, local, exempts, r))
      && after == Filter(added + before, KeepsLine(bridge, local, exempts))
  }

  class NatChain {
    var rules: seq<Line>
    var tick: nat
    const faults: nat -> Fault

    ghost predicate Clean(from: nat, to: nat) {
      forall i :: from <= i < to ==> faults(i) == NoFault
    }

    constructor (rules: seq<Line>, faults: nat -> Fault)
      ensures this.rules == rules && tick == 0 && this.faults == faults
    {
      this.rules, tick, this.faults := rules, 0, faults;
    }

    /** One command with the given effect, which may be lost before or after it. */
    method Run(next: Option<seq<Line>>) returns (ok: bool)
      modifies this
      ensures tick == old(tick) + 1
      ensures rules == if next.Some? && faults(old(tick)) != LostBefore then next.value else old(rules)
      ensures ok <==> next.Some? && faults(old(tick)) == NoFault
    {
      if next.Some? && faults(tick) != LostBefore {
        rules := next.value;
      }
      ok := next.Some? && faults(tick) == NoFault;
      tick := tick + 1;
    }

    /** ensure_nat_exemption_rule. */
    method Ensure(r: Line) returns (ok: bool)
      modifies this
      ensures tick >= old(tick) && (rules == old(rules) || rules == [r] + old(rules))
      ensures ok ==> r in rules
      ensures Clean(old(tick), tick) ==> ok
    {
      ok := Run(if r in rules then Some(rules) else None);
      if !ok {
        ok := Run(Some([r] + rules));
      }
    }

    method EnsureAll(bridge: string, local: string, exempts: seq<string>) returns (ok: bool, ghost added: seq<Line>)
      modifies this
      ensures tick >= old(tick) && rules == added + old(rules)
      ensures forall r :: r in added ==> DesiredLine(bridge, local, exempts, r)
      ensures ok ==> forall e :: e in exempts ==> ExemptLine(bridge, local, e) in rules
      ensures Clean(old(tick), tick) ==> ok
    {
      ok, added := true, [];
      for i := 0 to |exempts|
        invariant tick >= old(tick) && ok && rules == added + old(rules)
        invariant forall r :: r in added ==> DesiredLine(bridge, local, exempts, r)
        invariant forall k :: 0 <= k < i ==> ExemptLine(bridge, local, exempts[k]) in rules
      {
        var r := ExemptLine(bridge, local, exempts[i]);
        ghost var before := rules;
        ok := Ensure(r);
        assert DesiredLine(bridge, local, exempts, r) by { assert exempts[i] in exempts; }
        if rules != before {
          added := [r] + added;
        }
        if !ok {
          return;
        }
      }
    }

    /** Deletes one listed line that is not kept. */
    method DropLine(listed: seq<Line>, i: nat, ghost keep: Line -> bool) returns (ok: bool)
      requires i < |listed| && !keep(listed[i]) && rules == Filter(listed[..i], keep) + listed[i..]
      modifies this
      ensures tick == old(tick) + 1 && (ok <==> faults(old(tick)) == NoFault)
      ensures rules == Filter(listed[..i + 1], keep) + listed[i + 1..] || (!ok && rules == old(rules))
    {
      LineDropped(listed, i, keep);
      ok := Run(Some(RemoveFirst(rules, Is(listed[i]))));
    }

    /** The deletion loop over the listed lines; the first failure aborts. */
    method DeleteStale(bridge: string, local: string, exempts: seq<string>, ghost keep: Line -> bool) returns (ok: bool)
      requires keep == KeepsLine(bridge, local, exempts)
      modifies this
      ensures tick >= old(tick)
      ensures ok ==> rules == Filter(old(rules), keep)
      ensures exists n :: 0 <= n <= |old(rules)| && rules == Filter(old(rules)[..n], keep) + old(rules)[n..]
      ensures Clean(old(tick), tick) ==> ok
    {
      var listed := rules;
      assert Filter(listed[..0], keep) + listed[0..] == listed;
      ok := Run(Some(rules));
      if !ok {
        return;
      }
      for i := 0 to |listed|
        invariant tick >= old(tick) && ok && rules == Filter(listed[..i], keep) + listed[i..]
      {
        LineStep(listed, i, keep);
        var kept := KeptLine(bridge, local, exempts, listed[i]);
        if !kept {
          ok := DropLine(listed, i, keep);
          if !ok {
            return;
          }
        }
      }
      assert listed[..|listed|] == listed && listed[|listed|..] == [];
    }

    /** sync_nat_exemption_rules. */
    method Sync(bridge: string, local: string, exempts: seq<string>) returns (ok: bool)
      modifies this
      ensures tick >= old(tick)
      ensures ok ==> Exempted(bridge, local, exempts, old(rules), rules)
      ensures ok ==> forall e :: e in exempts ==> ExemptLine(bridge, local, e) in rules
      ensures forall r :: r in rules ==> r in old(rules) || DesiredLine(bridge, local, exempts, r)
      ensures forall r :: r in old(rules) && KeptLine(bridge, local, exempts, r) ==> r in rules
      ensures Clean(old(tick), tick) ==> ok
    {
      ghost var added;
      ok, added := EnsureAll(bridge, local, exempts);
      if ok {
        ghost var mid, keep := rules, KeepsLine(bridge, local, exempts);
        ok := DeleteStale(bridge, local, exempts, keep);
        ghost var n :| 0 <= n <= |mid| && rules == Filter(mid[..n], keep) + mid[n..];
        FilteredMembers(mid, n, keep);
        forall e | e in exempts ensures KeptLine(bridge, local, exempts, ExemptLine(bridge, local, e)) {
          DesiredIsKept(bridge, local, exempts, e);
        }
      }
    }
  }

  function Is(r: Line): Line -> bool {
    (x: Line) => x == r
  }

  lemma LineStep(listed: seq<Line>, i: nat, keep: Line -> bool)
    requires i < |listed|
    ensures Filter(listed[..i + 1], keep) == Filter(listed[..i], keep) + (if keep(listed[i]) then [listed[i]] else [])
    ensures Filter(listed[..i], keep) + listed[i..] == Filter(listed[..i], keep) + [listed[i]] + listed[i + 1..]
  {
    assert listed[..i + 1][..i] == listed[..i];
    assert listed[i..] == [listed[i]] + listed[i + 1..];
  }

  /** What the list holds while it is being filtered. */
  lemma FilteredMembers(listed: seq<Line>, i: nat, keep: Line -> bool)
    requires i <= |listed|
    ensures forall r :: r in Filter(listed[..i], keep) ==> keep(r) && r in listed
    ensures forall r :: r in Filter(listed[..i], keep) + listed[i..] ==> r in listed
    ensures forall r :: r in listed && keep(r) ==> r in Filter(listed[..i], keep) + listed[i..]
  {
    assert listed == listed[..i] + listed[i..];
    forall r ensures r in Filter(listed[..i], keep) <==> r in listed[..i] && keep(r) {
      FilterMembers(listed[..i], keep, r);
    }
  }

  /** Deleting a line that is not kept deletes the one at hand. */
  lemma LineDropped(listed: seq<Line>, i: nat, keep: Line -> bool)
    requires i < |listed| && !keep(listed[i])
    ensures RemoveFirst(Filter(listed[..i], keep) + listed[i..], Is(listed[i])) ==
            Filter(listed[..i + 1], keep) + listed[i + 1..]
  {
    var kept, x := Filter(listed[..i], keep), listed[i];
    LineStep(listed, i, keep);
    forall j | 0 <= j < |kept| ensures !Is(x)(kept[j]) {
      FilterMembers(listed[..i], keep, kept[j]);
    }
    RemoveFirstHead(kept, x, listed[i + 1..], Is(x));
    assert kept + [x] + listed[i + 1..] == kept + listed[i..];
  }

  lemma DesiredIsKept(bridge: string, local: string, exempts: seq<string>, e: string)
    requires e in exempts
    ensures KeptLine(bridge, local, exempts, ExemptLine(bridge, local, e))
  {
    var r := ExemptLine(bridge, local, e);
    assert forall a :: a in r ==> a in Printed(r);
    assert RuleMatches(Printed(r), ExemptLine(bridge, local, e));
  }

  /* ---- which exemptions remain ---- */

  lemma OwnSource(bridge: string, local: string, e: string)
    ensures Contains(Join(Printed(ExemptLine(bridge, local, e))), "-s " + local)
  {
    var rest := ["-d", e, "!", "-o", bridge, "-j", "RETURN"];
    assert Printed(ExemptLine(bridge, local, e)) == ["-A", "POSTROUTING"] + ["-s", local] + rest;
    JoinHolds(["-A", "POSTROUTING"], ["-s", local], rest);
    JoinTwo("-s", local);
    assert "-s" + " " + local == "-s " + local;
  }

  lemma OwnOutput(bridge: string, local: string, e: string)
    ensures Contains(Join(Printed(ExemptLine(bridge, local, e))), "! -o " + bridge)
  {
    var first := ["-A", "POSTROUTING", "-s", local, "-d", e];
    assert Printed(ExemptLine(bridge, local, e)) == first + ["!", "-o", bridge] + ["-j", "RETURN"];
    JoinHolds(first, ["!", "-o", bridge], ["-j", "RETURN"]);
    JoinThree("!", "-o", bridge);
    assert "!" + " " + "-o" + " " + bridge == "! -o " + bridge;
  }

  lemma OwnTarget(bridge: string, local: string, e: string)
    ensures Contains(Join(Printed(ExemptLine(bridge, local, e))), "-j RETURN")
  {
    var first := ["-A", "POSTROUTING", "-s", local, "-d", e, "!", "-o", bridge];
    assert Printed(ExemptLine(bridge, local, e)) == first + ["-j", "RETURN"] + [];
    JoinHolds(first, ["-j", "RETURN"], []);
    JoinTwo("-j", "RETURN");
    assert "-j" + " " + "RETURN" == "-j RETURN";
  }

  /** Every exemption of this bridge and subnet is recognised as such. */
  lemma OwnLooksOurs(bridge: string, local: string, e: string)
    ensures LooksOurs(bridge, local, ExemptLine(bridge, local, e))
  {
    OwnSource(bridge, local, e);
    OwnOutput(bridge, local, e);
    OwnTarget(bridge, local, e);
  }

  lemma DesiredLineMeans(bridge: string, local: string, exempts: seq<string>, e: string)
    ensures DesiredLine(bridge, local, exempts, ExemptLine(bridge, local, e)) <==> e in exempts
  {
    assert forall x :: ExemptLine(bridge, local, x)[3] == x;
  }

  /**
   * Among exemptions of one bridge and subnet, token containment is equality, up to a
   * desired subnet equal to the local one.
   */
  lemma MatchesIff(bridge: string, local: string, e: string, e': string)
    requires '/' in local && '/' in e && '/' in e' && '/' !in bridge
    ensures RuleMatches(Printed(ExemptLine(bridge, local, e')), ExemptLine(bridge, local, e)) <==> e == e' || e == local
  {
    var line, args := Printed(ExemptLine(bridge, local, e')), ExemptLine(bridge, local, e);
    assert forall a :: a in args <==>
      || a == "-s" || a == local || a == "-d" || a == e
      || a == "!" || a == "-o" || a == bridge || a == "-j" || a == "RETURN";
    assert forall a :: a in line <==>
      || a == "-A" || a == "POSTROUTING" || a == "-s" || a == local || a == "-d" || a == e'
      || a == "!" || a == "-o" || a == bridge
      || a == "-j" || a == "RETURN";
    assert RuleMatches(line, args) <==> e in line;
  }

  /** Subnets are written with a slash. */
  predicate Slashed(subnets: seq<string>) {
    forall e :: e in subnets ==> '/' in e
  }

  /**
   * An exemption of this bridge and subnet that is no longer desired survives exactly
   * when the local subnet itself is among the desired ones.
   */
  lemma StaleExemptionIff(bridge: string, local: string, exempts: seq<string>, e: string)
    requires '/' in local && '/' in e && '/' !in bridge && Slashed(exempts) && e !in exempts
    ensures KeptLine(bridge, local, exempts, ExemptLine(bridge, local, e)) <==> local in exempts
  {
    OwnLooksOurs(bridge, local, e);
    forall x | x in exempts
      ensures RuleMatches(Printed(ExemptLine(bridge, local, e)), ExemptLine(bridge, local, x)) <==> x == local
    {
      MatchesIff(bridge, local, x, e);
    }
  }

  /**
   * After a sync the exemptions of this bridge and subnet are exactly the desired ones,
   * unless a stale one survives that way.
   */
  lemma ExemptionsExactIff(bridge: string, local: string, exempts: seq<string>, before: seq<Line>, after: seq<Line>)
    requires '/' in local && '/' !in bridge && Slashed(exempts) && Exempted(bridge, local, exempts, before, after)
    requires forall e :: e in exempts ==> ExemptLine(bridge, local, e) in after
    ensures (forall e :: '/' in e ==> (ExemptLine(bridge, local, e) in after <==> e in exempts)) <==>
            !(local in exempts && exists e :: '/' in e && e !in exempts && ExemptLine(bridge, local, e) in before)
  {
    var keep := KeepsLine(bridge, local, exempts);
    var added :| (forall r :: r in added ==> DesiredLine(bridge, local, exempts, r))
      && after == Filter(added + before, keep);
    forall e | '/' in e && e !in exempts
      ensures ExemptLine(bridge, local, e) in after <==> local in exempts && ExemptLine(bridge, local, e) in before
    {
      var r := ExemptLine(bridge, local, e);
      FilterMembers(added + before, keep, r);
      StaleExemptionIff(bridge, local, exempts, e);
      DesiredLineMeans(bridge, local, exempts, e);
    }
  }

  /* ---- lines of other bridges and subnets ---- */

  /** What a valid line is made of. */
  predicate ValidLine(bridge: string, local: string, e: string) {
    ValidIfaceName(bridge) && ValidIpv4Cidr(local) && ValidIpv4Cidr(e)
  }

  /** The tokens of a printed exemption, its flags given. */
  predicate Shape(t: seq<string>, src: string, bang: string, out: string) {
    && |t| == 11 && t[2] == src && t[6] == bang && t[7] == out
    && (forall k :: 0 <= k < 11 ==> t[k] != "" && SpaceFree(t[k]))
    && (forall k :: 0 <= k < 11 && k != 7 ==> t[k] != out)
    && (forall k :: 0 <= k < 11 && k != 3 && k != 5 && k != 8 ==> !IsDigit(t[k][0]))
    && !EndsWith(t[4], src) && !EndsWith(t[7], src)
  }

  /** A token that is neither blank nor `out` nor starts with a digit. */
  predicate Fixed(t: string, out: string) {
    t != "" && SpaceFree(t) && t != out && !IsDigit(t[0])
  }

  predicate Free(t: string, out: string) {
    t != "" && SpaceFree(t) && t != out
  }

  lemma MakeShape(add: string, chain: string, src: string, local: string, dst: string, e: string, bang: string,
                  out: string, bridge: string, jump: string, target: string)
    requires Fixed(add, out) && Fixed(chain, out) && Fixed(src, out) && Fixed(dst, out) && Fixed(bang, out)
    requires Fixed(jump, out) && Fixed(target, out) && Free(local, out) && Free(e, out) && Free(bridge, out)
    requires out != "" && SpaceFree(out) && !IsDigit(out[0]) && !EndsWith(dst, src) && !EndsWith(out, src)
    ensures Shape([add, chain, src, local, dst, e, bang, out, bridge, jump, target], src, bang, out)
  {
  }

  lemma FlagShapes()
    ensures Fixed("-A", "-o") && Fixed("-s", "-o") && Fixed("-d", "-o") && Fixed("-j", "-o") && Fixed("!", "-o")
    ensures SpaceFree("-o") && "-o"[0] == '-' && !EndsWith("-d", "-s") && !EndsWith("-o", "-s")
  {
    assert "-A"[1] == 'A' && "-s"[1] == 's' && "-d"[1] == 'd' && "-o"[1] == 'o' && "-j"[1] == 'j';
    assert "!"[0] == '!' && "-A"[0] == '-' && "-s"[0] == '-' && "-d"[0] == '-' && "-o"[0] == '-' && "-j"[0] == '-';
  }

  lemma WordShapes()
    ensures Fixed("POSTROUTING", "-o") && Fixed("RETURN", "-o")
  {
    assert "POSTROUTING"[0] == 'P' && "RETURN"[0] == 'R' && "-o"[0] == '-';
  }

  predicate FreeLine(bridge: string, local: string, e: string) {
    Free(bridge, "-o") && Free(local, "-o") && Free(e, "-o")
  }

  lemma ValidIsFree(bridge: string, local: string, e: string, out: string)
    requires ValidLine(bridge, local, e) && out != "" && out[0] == '-'
    ensures Free(bridge, out) && Free(local, out) && Free(e, out)
  {
    CidrAlphabet(local);
    CidrAlphabet(e);
  }

  lemma LineShape(bridge: string, local: string, e: string)
    requires FreeLine(bridge, local, e)
    ensures Shape(Printed(ExemptLine(bridge, local, e)), "-s", "!", "-o")
  {
    FlagShapes();
    WordShapes();
    MakeShape("-A", "POSTROUTING", "-s", local, "-d", e, "!", "-o", bridge, "-j", "RETURN");
    assert Printed(ExemptLine(bridge, local, e)) ==
           ["-A", "POSTROUTING", "-s", local, "-d", e, "!", "-o", bridge, "-j", "RETURN"];
  }

  /** Only the token after `src` can start with a digit behind a token that ends in `src`. */
  lemma SourceAt(t: seq<string>, src: string, bang: string, out: string, p: string)
    requires Shape(t, src, bang, out) && p != "" && IsDigit(p[0]) && SpaceFree(p)
    ensures Contains(Join(t), src + " " + p) <==> p <= t[3]
  {
    assert SpaceFree(t[2]) && t[2] != "" && EndsWith(t[2], src);
    forall k | 0 <= k < |t| - 1 && k != 2 && EndsWith(t[k], src) ensures !(p <= t[k + 1]) {
      DigitPrefix(p, t[k + 1]);
    }
    PairAt(t, src, p, 2);
  }

  /** Only the token before the bridge is `out`. */
  lemma OutputAt(t: seq<string>, src: string, bang: string, out: string, p: string)
    requires Shape(t, src, bang, out) && SpaceFree(p) && p != ""
    ensures Contains(Join(t), bang + " " + (out + " " + p)) <==> p <= t[8]
  {
    assert SpaceFree(t[6]) && t[6] != "" && SpaceFree(t[7]) && EndsWith(t[6], bang);
    TripleAt(t, bang, out, p, 6);
  }

  lemma SourceIff(bridge: string, local: string, e: string, p: string)
    requires FreeLine(bridge, local, e) && p != "" && IsDigit(p[0]) && SpaceFree(p)
    ensures Contains(Join(Printed(ExemptLine(bridge, local, e))), "-s " + p) <==> p <= local
  {
    LineShape(bridge, local, e);
    SourceAt(Printed(ExemptLine(bridge, local, e)), "-s", "!", "-o", p);
    assert "-s" + " " + p == "-s " + p;
  }

  lemma OutputIff(bridge: string, local: string, e: string, p: string)
    requires FreeLine(bridge, local, e) && p != "" && SpaceFree(p)
    ensures Contains(Join(Printed(ExemptLine(bridge, local, e))), "! -o " + p) <==> p <= bridge
  {
    LineShape(bridge, local, e);
    OutputAt(Printed(ExemptLine(bridge, local, e)), "-s", "!", "-o", p);
    assert "!" + " " + ("-o" + " " + p) == "! -o " + p;
  }

  /** A line passes for an exemption of this bridge and subnet exactly when its own merely start with them. */
  lemma LooksOursIff(bridge: string, local: string, bridge': string, local': string, e: string)
    requires ValidIfaceName(bridge) && ValidIpv4Cidr(local) && ValidLine(bridge', local', e)
    ensures LooksOurs(bridge, local, ExemptLine(bridge', local', e)) <==> local <= local' && bridge <= bridge'
  {
    ValidIsFree(bridge', local', e, "-o");
    ValidIsFree(bridge, local, local, "-o");
    CidrAlphabet(local);
    SourceIff(bridge', local', e, local);
    OutputIff(bridge', local', e, bridge);
    OwnTarget(bridge', local', e);
  }

  /** When the tokens of a wanted exemption all occur in a line of whatever bridge and subnet. */
  predicate CoveredBy(bridge: string, local: string, e: string, bridge': string, local': string, e': string) {
    && (local == local' || local == e') && (e == local' || e == e')
    && (bridge == bridge' || bridge == "POSTROUTING" || bridge == "!" || bridge == "RETURN")
  }

  lemma OtherMatchesIff(bridge: string, local: string, e: string, bridge': string, local': string, e': string)
    requires local != "" && IsDigit(local[0]) && e != "" && IsDigit(e[0]) && bridge != "" && bridge[0] != '-'
    requires bridge != local' && bridge != e' && local != bridge' && e != bridge'
    ensures RuleMatches(Printed(ExemptLine(bridge', local', e')), ExemptLine(bridge, local, e)) <==>
              CoveredBy(bridge, local, e, bridge', local', e')
  {
    var line := Printed(ExemptLine(bridge', local', e'));
    WordIsNoSubnet(local);
    WordIsNoSubnet(e);
    LineMembers(bridge', local', e', local);
    LineMembers(bridge', local', e', e);
    LineMembers(bridge', local', e', bridge);
    assert line[2] == "-s" && line[4] == "-d" && line[6] == "!" && line[7] == "-o" && line[9] == "-j";
    assert line[10] == "RETURN";
    ArgsIn(line, bridge, local, e);
  }

  lemma WordIsNoSubnet(s: string)
    requires s != "" && IsDigit(s[0])
    ensures s != "POSTROUTING" && s != "!" && s != "RETURN"
  {
    assert "POSTROUTING"[0] == 'P' && "!"[0] == '!' && "RETURN"[0] == 'R';
  }

  lemma LineMembers(bridge: string, local: string, e: string, a: string)
    requires a != "" && a[0] != '-'
    ensures a in Printed(ExemptLine(bridge, local, e)) <==>
            a == local || a == e || a == bridge || a == "POSTROUTING" || a == "!" || a == "RETURN"
  {
    var t := Printed(ExemptLine(bridge, local, e));
    assert t[0][0] == '-' && t[2][0] == '-' && t[4][0] == '-' && t[7][0] == '-' && t[9][0] == '-';
    assert t[1] == "POSTROUTING" && t[3] == local && t[5] == e && t[6] == "!" && t[8] == bridge && t[10] == "RETURN";
  }

  lemma ArgsIn(line: seq<string>, bridge: string, local: string, e: string)
    requires "-s" in line && "-d" in line && "!" in line && "-o" in line && "-j" in line && "RETURN" in line
    ensures RuleMatches(line, ExemptLine(bridge, local, e)) <==> local in line && e in line && bridge in line
  {
    var args := ExemptLine(bridge, local, e);
    assert args[1] == local && args[3] == e && args[6] == bridge;
  }

  /**
   * What a sync does to an exemption of any bridge and subnet: it goes exactly when they
   * start with the synced ones and no wanted exemption is spelled by its tokens.
   */
  lemma SyncReach(bridge: string, local: string, exempts: seq<string>, before: seq<Line>, after: seq<Line>,
                  bridge': string, local': string, e': string)
    requires ValidIfaceName(bridge) && ValidIpv4Cidr(local) && (forall e :: e in exempts ==> ValidIpv4Cidr(e))
    requires ValidLine(bridge', local', e')
    requires Exempted(bridge, local, exempts, before, after) && ExemptLine(bridge', local', e') in before
    ensures ExemptLine(bridge', local', e') in after <==>
              (local <= local' && bridge <= bridge' ==>
                 exists e :: e in exempts && CoveredBy(bridge, local, e, bridge', local', e'))
  {
    var r, keep := ExemptLine(bridge', local', e'), KeepsLine(bridge, local, exempts);
    var added :| (forall x :: x in added ==> DesiredLine(bridge, local, exempts, x))
      && after == Filter(added + before, keep);
    FilterMembers(added + before, keep, r);
    LooksOursIff(bridge, local, bridge', local', e');
    forall e | e in exempts
      ensures RuleMatches(Printed(r), ExemptLine(bridge, local, e)) <==>
                CoveredBy(bridge, local, e, bridge', local', e')
    {
      CidrAlphabet(local);
      CidrAlphabet(e);
      CidrAlphabet(local');
      CidrAlphabet(e');
      OtherMatchesIff(bridge, local, e, bridge', local', e');
    }
  }

  /* ---- the masquerading rule itself ---- */

  function MasqueradeLine(bridge: string, subnet: string): Line {
    ["-s", subnet, "!", "-o", bridge, "-j", "MASQUERADE"]
  }

  predicate IsFlag(s: string) {
    s != "" && s[0] == '-'
  }

  /** In such a line no token that ends in `jump` comes before `target`. */
  lemma OtherTarget(t: seq<string>, jump: string, target: string)
    requires |t| == 9 && Tokens(t) && t[7] == jump && IsFlag(jump) && SpaceFree(jump)
    requires SpaceFree(target) && target != "" && !IsFlag(target) && !(target <= t[8])
    requires forall k :: 0 <= k < 6 ==> !EndsWith(t[k], jump)
    ensures !Contains(Join(t), jump + " " + target)
  {
    assert t[7] in t && EndsWith(t[7], jump);
    FlagPrefix(target, jump);
    PairAt(t, jump, target, 7);
  }

  lemma FlagPrefix(p: string, t: string)
    requires p != "" && !IsFlag(p) && IsFlag(t)
    ensures !(p <= t)
  {
  }

  lemma MasqueradeTokens(bridge: string, subnet: string)
    requires Free(bridge, "-o") && Free(subnet, "-o") && 'j' !in subnet
    ensures var t := Printed(MasqueradeLine(bridge, subnet));
            Tokens(t) && forall k :: 0 <= k < 6 ==> !EndsWith(t[k], "-j")
  {
    FlagShapes();
    WordShapes();
    var t := Printed(MasqueradeLine(bridge, subnet));
    assert SpaceFree("MASQUERADE");
    assert "-j"[1] == 'j' && "-A"[1] == 'A' && "POSTROUTING"[10] == 'G' && "-s"[1] == 's' && "-o"[1] == 'o';
  }

  /** A bridge's masquerading rule is never taken for an exemption, so no sync deletes it. */
  lemma MasqueradeKept(bridge: string, local: string, exempts: seq<string>, bridge': string, subnet: string)
    requires ValidIfaceName(bridge') && ValidIpv4Cidr(subnet)
    ensures KeptLine(bridge, local, exempts, MasqueradeLine(bridge', subnet))
  {
    CidrAlphabet(subnet);
    ValidIsFree(bridge', subnet, subnet, "-o");
    MasqueradeTokens(bridge', subnet);
    NotReturn(bridge', subnet);
  }

  lemma NotReturn(bridge: string, subnet: string)
    requires var t := Printed(MasqueradeLine(bridge, subnet));
             Tokens(t) && forall k :: 0 <= k < 6 ==> !EndsWith(t[k], "-j")
    ensures !Contains(Join(Printed(MasqueradeLine(bridge, subnet))), "-j RETURN")
  {
    var t := Printed(MasqueradeLine(bridge, subnet));
    FlagShapes();
    WordShapes();
    assert "MASQUERADE"[0] == 'M' && "RETURN"[0] == 'R';
    OtherTarget(t, "-j", "RETURN");
    assert "-j" + " " + "RETURN" == "-j RETURN";
  }

  /* ---- concrete inputs ---- */

  /** The subnet d.d.d.d/8. */
  function Net(d: char): string {
    [d, '.', d, '.', d, '.', d, '/', '8']
  }

  lemma ExampleBridges()
    ensures ValidIfaceName("br1") && ValidIfaceName("br12") && "br1" <= "br12"
  {
    AsciiLength("br1");
    AsciiLength("br12");
  }

  lemma ExampleNets()
    ensures ValidIpv4Cidr(Net('1')) && ValidIpv4Cidr(Net('2')) && Net('1') != Net('2')
  {
    ShortCidr('1');
    ShortCidr('2');
    assert Net('1')[0] != Net('2')[0];
  }

  lemma OwnSubnetWanted(bridge: string, local: string, e: string)
    requires ValidLine(bridge, local, e) && e != local
    ensures KeptLine(bridge, local, [local], ExemptLine(bridge, local, e))
  {
    CidrAlphabet(local);
    CidrAlphabet(e);
    StaleExemptionIff(bridge, local, [local], e);
  }

  /** With its own subnet among the wanted ones, bridge br1 keeps an exemption for 2.2.2.2/8 that it no longer wants. */
  lemma StaleExemptionSurvives()
    ensures ValidLine("br1", Net('1'), Net('2')) && Net('1') != Net('2')
    ensures KeptLine("br1", Net('1'), [Net('1')], ExemptLine("br1", Net('1'), Net('2')))
  {
    ExampleBridges();
    ExampleNets();
    OwnSubnetWanted("br1", Net('1'), Net('2'));
  }

  lemma NoneWanted(bridge: string, bridge': string, local: string, e: string)
    requires ValidIfaceName(bridge) && ValidLine(bridge', local, e) && bridge <= bridge'
    ensures !KeptLine(bridge, local, [], ExemptLine(bridge', local, e))
  {
    LooksOursIff(bridge, local, bridge', local, e);
  }

  /** A sync of br1 that wants no exemption deletes the one br12 has for the same subnet. */
  lemma PrefixBridgeLosesExemption()
    ensures ValidLine("br12", Net('1'), Net('2')) && ValidIfaceName("br1")
    ensures !KeptLine("br1", Net('1'), [], ExemptLine("br12", Net('1'), Net('2')))
  {
    ExampleBridges();
    ExampleNets();
    NoneWanted("br1", "br12", Net('1'), Net('2'));
  }
}
