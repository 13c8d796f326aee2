/**
 * What a VM's firewall looks like between two iptables commands: the rules a
 * packet really meets, and the safety condition every intermediate table must meet.
 */
module FirewallState {
  import opened Common
  import opened IptablesKernel
  import opened ForwardText

  function JumpTo(c: string): Rule {
    ANY.(target := Jump(c))
  }

  predicate PointsTo(t: Table, s: Side, c: string) {
    s.parent in t && t[s.parent] == [JumpTo(c)] && c in t
  }

  /** The rules in force for one direction: the child the parent jumps to, or none. */
  function Effective(t: Table, s: Side): seq<Rule> {
    if PointsTo(t, s, s.a) then t[s.a] else if PointsTo(t, s, s.b) then t[s.b] else []
  }

  /** Only the parent jumps to a child and only FORWARD jumps to the parent. */
  predicate MayHold(s: Side, d: string, rules: seq<Rule>) {
    && (d != s.parent ==> !Targets(rules, s.a) && !Targets(rules, s.b))
    && (d != FORWARD ==> !Targets(rules, s.parent))
  }

  /** The parent is missing, empty, or exactly one jump to an existing jump-free child. */
  ghost predicate WellFormed(t: Table, s: Side) {
    && (s.parent in t ==> t[s.parent] == [] || PointsTo(t, s, s.a) || PointsTo(t, s, s.b))
    && (s.a in t ==> NoJumps(t[s.a]))
    && (s.b in t ==> NoJumps(t[s.b]))
    && forall d :: d in t ==> MayHold(s, d, t[d])
  }

  /** In a well-formed table a packet sent to the parent gets exactly the verdict of the effective rules. */
  lemma ParentVerdict(env: Env, t: Table, s: Side, p: Packet, fuel: nat)
    requires WellFormed(t, s) && s.parent in t && fuel >= 1
    ensures Walk(env, t, t[s.parent], p, fuel) == Walk(env, map[], Effective(t, s), p, 0)
  {
    if t[s.parent] != [] {
      var c := if PointsTo(t, s, s.a) then s.a else s.b;
      assert t[s.parent] == [JumpTo(c)] && t[s.parent][1..] == [];
      WalkIsLocal(env, t, map[], t[c], p, fuel - 1, 0);
    }
  }

  predicate IsChild(s: Side, c: string) {
    c == s.a || c == s.b
  }

  lemma NoJumpsMayHold(s: Side, d: string, rules: seq<Rule>)
    requires NoJumps(rules)
    ensures MayHold(s, d, rules)
  {
  }

  /** Rewriting a chain of another owner leaves this side's rules in force. */
  lemma OtherChain(t: Table, s: Side, c: string, rules: seq<Rule>)
    requires WellFormed(t, s) && ThreeChains(s) && Apart(s, c) && MayHold(s, c, rules)
    ensures WellFormed(t[c := rules], s) && Effective(t[c := rules], s) == Effective(t, s)
  {
  }

  /** A child nobody jumps to may be rewritten freely. */
  lemma SpareChild(t: Table, s: Side, c: string, rules: seq<Rule>)
    requires WellFormed(t, s) && ThreeChains(s) && IsChild(s, c) && !PointsTo(t, s, c) && NoJumps(rules)
    ensures WellFormed(t[c := rules], s) && Effective(t[c := rules], s) == Effective(t, s)
    ensures !PointsTo(t[c := rules], s, c)
  {
    NoJumpsMayHold(s, c, rules);
  }

  /** Swinging the parent onto a child puts exactly that child's rules in force. */
  lemma SwapParent(t: Table, s: Side, c: string)
    requires WellFormed(t, s) && ThreeChains(s) && IsChild(s, c) && c in t
    ensures WellFormed(t[s.parent := [JumpTo(c)]], s)
    ensures PointsTo(t[s.parent := [JumpTo(c)]], s, c) && Effective(t[s.parent := [JumpTo(c)]], s) == t[c]
  {
    assert MayHold(s, s.parent, [JumpTo(c)]);
  }

  /** Emptying any chain of a side leaves its old rules in force, or none. */
  lemma FlushAny(t: Table, s: Side, c: string)
    requires WellFormed(t, s) && ThreeChains(s) && !Apart(s, c)
    ensures WellFormed(t[c := []], s)
    ensures Effective(t[c := []], s) == Effective(t, s) || Effective(t[c := []], s) == []
  {
    NoJumpsMayHold(s, c, []);
  }

  lemma PointedIsReferenced(t: Table, s: Side, c: string)
    requires PointsTo(t, s, c)
    ensures Referenced(t, c)
  {
    assert JumpTo(c) in t[s.parent];
    assert Targets(t[s.parent], c);
  }

  /** The kernel only deletes chains whose removal changes nothing for a packet. */
  lemma DeleteUnused(t: Table, s: Side, c: string)
    requires WellFormed(t, s) && ThreeChains(s) && c in t && t[c] == [] && !Referenced(t, c)
    ensures WellFormed(t - {c}, s) && Effective(t - {c}, s) == Effective(t, s)
  {
    if PointsTo(t, s, s.a) {
      PointedIsReferenced(t, s, s.a);
    }
    if PointsTo(t, s, s.b) {
      PointedIsReferenced(t, s, s.b);
    }
  }

  /* ---- one synchronisation ---- */

  /**
   * The table a synchronisation starts from, the rule lists it wants in force,
   * and which FORWARD rules do not mention its inbound and outbound parent.
   */
  datatype Ctx = Ctx(base: Table, ins: Side, outs: Side, goalIn: seq<Rule>, goalOut: seq<Rule>,
                     quietIn: Rule -> bool, quietOut: Rule -> bool)

  predicate Foreign(ctx: Ctx, c: string) {
    Apart(ctx.ins, c) && Apart(ctx.outs, c) && c != FORWARD
  }

  /** FORWARD rules that mention neither parent of this VM. */
  function Unrelated(ctx: Ctx): Rule -> bool {
    (r: Rule) => ctx.quietIn(r) && ctx.quietOut(r)
  }

  /** Jumping to a parent is one way of mentioning it. */
  ghost predicate Attentive(ctx: Ctx) {
    && (forall r :: ctx.quietIn(r) ==> r.target != Jump(ctx.ins.parent))
    && (forall r :: ctx.quietOut(r) ==> r.target != Jump(ctx.outs.parent))
  }

  /** Other chains, and the unrelated rules of FORWARD in their order, are as they were. */
  ghost predicate Framed(ctx: Ctx, t: Table) {
    && FORWARD in t && FORWARD in ctx.base
    && (forall c :: Foreign(ctx, c) ==> (c in t <==> c in ctx.base) && (c in t ==> t[c] == ctx.base[c]))
    && Filter(t[FORWARD], Unrelated(ctx)) == Filter(ctx.base[FORWARD], Unrelated(ctx))
  }

  /** One direction is well formed and has exactly its old or its new rules in force. */
  ghost predicate OldOrNew(base: Table, t: Table, s: Side, goal: seq<Rule>) {
    WellFormed(t, s) && (Effective(t, s) == Effective(base, s) || Effective(t, s) == goal)
  }

  ghost predicate Safe(ctx: Ctx, t: Table) {
    && Distinct(ctx.ins, ctx.outs) && Attentive(ctx)
    && OldOrNew(ctx.base, t, ctx.ins, ctx.goalIn)
    && OldOrNew(ctx.base, t, ctx.outs, ctx.goalOut)
    && Framed(ctx, t)
  }

  function SideOf(ctx: Ctx, inbound: bool): Side {
    if inbound then ctx.ins else ctx.outs
  }

  function Quiet(ctx: Ctx, inbound: bool): Rule -> bool {
    if inbound then ctx.quietIn else ctx.quietOut
  }

  function Goal(ctx: Ctx, inbound: bool): seq<Rule> {
    if inbound then ctx.goalIn else ctx.goalOut
  }

  /** Rewriting a chain of this VM leaves everybody else's alone. */
  lemma OwnRewriteFramed(ctx: Ctx, t: Table, c: string, rules: seq<Rule>)
    requires Framed(ctx, t) && !Foreign(ctx, c) && c != FORWARD
    ensures Framed(ctx, t[c := rules])
  {
  }

  lemma OtherSideKept(base: Table, t: Table, s: Side, goal: seq<Rule>, c: string, rules: seq<Rule>)
    requires OldOrNew(base, t, s, goal) && ThreeChains(s) && Apart(s, c) && MayHold(s, c, rules)
    ensures OldOrNew(base, t[c := rules], s, goal)
  {
    OtherChain(t, s, c, rules);
  }

  lemma SpareSafe(ctx: Ctx, t: Table, inbound: bool, c: string, rules: seq<Rule>)
    requires Safe(ctx, t) && NoJumps(rules)
    requires IsChild(SideOf(ctx, inbound), c) && !PointsTo(t, SideOf(ctx, inbound), c)
    ensures Safe(ctx, t[c := rules])
  {
    SpareChild(t, SideOf(ctx, inbound), c, rules);
    NoJumpsMayHold(SideOf(ctx, !inbound), c, rules);
    OtherSideKept(ctx.base, t, SideOf(ctx, !inbound), Goal(ctx, !inbound), c, rules);
    OwnRewriteFramed(ctx, t, c, rules);
  }

  lemma SwapSafe(ctx: Ctx, t: Table, inbound: bool, c: string)
    requires Safe(ctx, t) && IsChild(SideOf(ctx, inbound), c) && c in t && t[c] == Goal(ctx, inbound)
    ensures Safe(ctx, t[SideOf(ctx, inbound).parent := [JumpTo(c)]])
  {
    var p := SideOf(ctx, inbound).parent;
    SwapParent(t, SideOf(ctx, inbound), c);
    assert MayHold(SideOf(ctx, !inbound), p, [JumpTo(c)]);
    OtherSideKept(ctx.base, t, SideOf(ctx, !inbound), Goal(ctx, !inbound), p, [JumpTo(c)]);
    OwnRewriteFramed(ctx, t, p, [JumpTo(c)]);
  }

  /** Emptying a chain leaves the old rules in force, the wanted ones, or none. */
  lemma FlushOwn(base: Table, t: Table, s: Side, goal: seq<Rule>, c: string)
    requires OldOrNew(base, t, s, goal) && ThreeChains(s) && !Apart(s, c) && (c !in t || goal == [])
    ensures OldOrNew(base, t[c := []], s, goal) && (c !in t ==> Effective(t[c := []], s) == Effective(t, s))
  {
    FlushAny(t, s, c);
  }

  /** A missing chain may be created empty; with nothing wanted, any chain may be emptied. */
  lemma FlushSafe(ctx: Ctx, t: Table, inbound: bool, c: string)
    requires Safe(ctx, t) && !Apart(SideOf(ctx, inbound), c)
    requires c !in t || (ctx.goalIn == [] && ctx.goalOut == [])
    ensures Safe(ctx, t[c := []])
    ensures c !in t ==> Effective(t[c := []], SideOf(ctx, inbound)) == Effective(t, SideOf(ctx, inbound))
  {
    FlushOwn(ctx.base, t, SideOf(ctx, inbound), Goal(ctx, inbound), c);
    NoJumpsMayHold(SideOf(ctx, !inbound), c, []);
    OtherSideKept(ctx.base, t, SideOf(ctx, !inbound), Goal(ctx, !inbound), c, []);
    OwnRewriteFramed(ctx, t, c, []);
  }

  lemma DeleteChainSafe(ctx: Ctx, t: Table, c: string)
    requires Safe(ctx, t) && !Foreign(ctx, c) && c != FORWARD
    requires c in t && t[c] == [] && !Referenced(t, c)
    ensures Safe(ctx, t - {c})
  {
    DeleteUnused(t, ctx.ins, c);
    DeleteUnused(t, ctx.outs, c);
  }

  /** Rewriting FORWARD is safe when unrelated rules stay and only parents are newly targeted. */
  lemma ForwardSafe(ctx: Ctx, t: Table, rules: seq<Rule>)
    requires Safe(ctx, t)
    requires Filter(rules, Unrelated(ctx)) == Filter(t[FORWARD], Unrelated(ctx))
    requires forall r :: r in rules ==>
               r in t[FORWARD] || r.target == Jump(ctx.ins.parent) || r.target == Jump(ctx.outs.parent)
    ensures Safe(ctx, t[FORWARD := rules])
  {
    assert MayHold(ctx.ins, FORWARD, t[FORWARD]) && MayHold(ctx.outs, FORWARD, t[FORWARD]);
    OtherChain(t, ctx.ins, FORWARD, rules);
    OtherChain(t, ctx.outs, FORWARD, rules);
  }
}
