/**
 * sync_vm_firewall and teardown_vm_firewall, command by command, against a
 * filter table on which any command may fail before or after taking effect
 * (qarax-node/src/networking/iptables.rs).
 */
module FirewallSync {
  import opened Common
  import opened IptablesKernel
  import opened Validation
  import opened FirewallCompiler
  import opened ForwardText
  import opened FirewallState

  /** A command may be lost before it runs, or run and be reported as failed. */
  datatype Fault = NoFault | LostBefore | LostAfter

  datatype Status = Done | Exists | Failed

  predicate Outcome(t: Table, cmd: Command, f: Fault, t': Table, status: Status) {
    var next := Apply(t, cmd);
    match f
    case NoFault =>
      if next.Some? then t' == next.value && status == Done
      else t' == t && status == if cmd.NewChain? then Exists else Failed
    case LostBefore => t' == t && status == Failed
    case LostAfter => t' == (if next.Some? then next.value else t) && status == Failed
  }

  /** One command against the table: what it leaves and how it is reported. */
  function Execute(t: Table, cmd: Command, f: Fault): (r: (Table, Status))
    ensures Outcome(t, cmd, f, r.0, r.1)
  {
    var next := Apply(t, cmd);
    (if f != LostBefore && next.Some? then next.value else t,
     if f != NoFault then Failed else if next.Some? then Done else if cmd.NewChain? then Exists else Failed)
  }

  function KeysOf(ifs: seq<Interface>): seq<JumpKey> {
    seq(|ifs|, i requires 0 <= i < |ifs| => JumpKey(ifs[i].bridge, ifs[i].ip))
  }

  function CtxFor(base: Table, vm: string, ifs: seq<Interface>): Ctx {
    Ctx(base, InSide(vm), OutSide(vm),
        if ifs == [] then [] else CompileIn(ifs), if ifs == [] then [] else CompileOut(ifs),
        Silent(InSide(vm).parent), Silent(OutSide(vm).parent))
  }

  /** A printed line survives reconciliation unless it mentions the parent and matches no desired rule. */
  predicate Kept(inbound: bool, parent: string, keys: seq<JumpKey>, line: seq<string>) {
    Mentions(line, parent) ==> exists k :: k in keys && RuleMatches(line, JumpArgs(inbound, k, parent))
  }

  predicate Desired(inbound: bool, parent: string, keys: seq<JumpKey>, r: Rule) {
    exists k :: k in keys && r == JumpRule(inbound, k, parent)
  }

  function Silent(parent: string): Rule -> bool {
    (r: Rule) => !Mentions(LineTokens(FORWARD, r), parent)
  }

  function Keeps(inbound: bool, parent: string, keys: seq<JumpKey>): Rule -> bool {
    (r: Rule) => Kept(inbound, parent, keys, LineTokens(FORWARD, r))
  }

  function Wants(inbound: bool, parent: string, keys: seq<JumpKey>): Rule -> bool {
    (r: Rule) => Desired(inbound, parent, keys, r)
  }

  /** Afterwards there are, as a set, exactly the wanted rules and those of before that are kept. */
  ghost predicate Becomes(before: seq<Rule>, after: seq<Rule>, keep: Rule -> bool, want: Rule -> bool) {
    forall r :: r in after <==> want(r) || (r in before && keep(r))
  }

  ghost predicate AllSafe(ctx: Ctx, states: seq<Table>) {
    forall t :: t in states ==> Safe(ctx, t)
  }

  ghost predicate All(states: seq<Table>, safe: Table -> bool) {
    forall t :: t in states ==> safe(t)
  }

  /** `safe` is the safety condition of `ctx`. */
  ghost predicate Guards(safe: Table -> bool, ctx: Ctx) {
    forall t {:trigger Safe(ctx, t)} :: safe(t) <==> Safe(ctx, t)
  }

  ghost predicate SameForward(t: Table, t': Table) {
    FORWARD in t && FORWARD in t' && t[FORWARD] == t'[FORWARD]
  }

  class Agent {
    var table: Table
    var tick: nat
    const faults: nat -> Fault
    /** The table after every command so far. */
    ghost var trace: seq<Table>
    /** The synchronisation in progress and where its part of the trace starts. */
    ghost var ctx: Ctx
    ghost var mark: nat
    ghost var safe: Table -> bool

    ghost predicate Valid()
      reads this
    {
      && mark <= |trace| && Distinct(ctx.ins, ctx.outs) && FORWARD in table
      && Guards(safe, ctx) && safe(table) && All(trace[mark..], safe)
    }

    /** No command in the given range of ticks failed. */
    ghost predicate Clean(from: nat, to: nat)
    {
      forall i :: from <= i < to ==> faults(i) == NoFault
    }

    constructor (t: Table, faults: nat -> Fault)
      ensures table == t && tick == 0 && trace == [] && this.faults == faults
    {
      table, tick, trace, mark := t, 0, [], 0;
      this.faults := faults;
      ctx, safe := CtxFor(t, "", []), (_: Table) => true;
    }

    method Run(cmd: Command) returns (status: Status)
      requires Valid()
      requires Apply(table, cmd).Some? ==> safe(Apply(table, cmd).value) && FORWARD in Apply(table, cmd).value
      modifies this`table, this`tick, this`trace
      ensures Valid()
      ensures tick == old(tick) + 1 && trace == old(trace) + [table]
      ensures Outcome(old(table), cmd, faults(old(tick)), table, status)
    {
      var (t, reported) := Execute(table, cmd, faults(tick));
      table, status, tick := t, reported, tick + 1;
      assert (trace + [table])[mark..] == trace[mark..] + [table];
      trace := trace + [table];
    }

    /** `iptables -S`: reads without changing, and may fail. */
    method List() returns (ok: bool)
      requires Valid()
      modifies this`tick
      ensures Valid() && tick == old(tick) + 1 && ok == (faults(old(tick)) == NoFault)
    {
      ok := faults(tick) == NoFault;
      tick := tick + 1;
    }

    method EnsureChain(inbound: bool, c: string) returns (ok: bool)
      requires Valid() && !Apart(SideOf(ctx, inbound), c)
      modifies this`table, this`tick, this`trace
      ensures Valid() && tick >= old(tick) && old(trace) <= trace
      ensures table == old(table) || (c !in old(table) && table == old(table)[c := []])
      ensures ok ==> c in table
      ensures Clean(old(tick), tick) ==> ok
    {
      if c !in table {
        FlushSafe(ctx, table, inbound, c);
      }
      var status := Run(NewChain(c));
      ok := status != Failed;
    }

    /** Picks the child that is not in force, by the text of the parent's rules. */
    method NextChild(inbound: bool, s: Side) returns (ok: bool, next: string)
      requires Valid() && s == SideOf(ctx, inbound)
      modifies this`tick
      ensures Valid() && tick >= old(tick)
      ensures IsChild(s, next) && !PointsTo(table, s, next)
      ensures Clean(old(tick), tick) && s.parent in table ==> ok
    {
      ok := List();
      ok := ok && s.parent in table;
      var onA := ShowsLine(s.parent, if s.parent in table then table[s.parent] else [], s.a);
      next := if onA then s.b else s.a;
      ShownChild(table, s);
    }

    /** A command on a child that is not in force. */
    method FlushSpare(inbound: bool, s: Side, c: string) returns (ok: bool)
      requires Valid() && s == SideOf(ctx, inbound) && IsChild(s, c) && !PointsTo(table, s, c)
      modifies this`table, this`tick, this`trace
      ensures Valid() && tick >= old(tick) && old(trace) <= trace
      ensures (c in old(table) && table == old(table)[c := []]) || (!ok && table == old(table))
      ensures Clean(old(tick), tick) && c in old(table) ==> ok
    {
      SpareSafe(ctx, table, inbound, c, []);
      var status := Run(Flush(c));
      ok := status == Done;
    }

    method AppendSpare(inbound: bool, s: Side, c: string, r: Rule) returns (ok: bool)
      requires Valid() && s == SideOf(ctx, inbound) && IsChild(s, c) && !PointsTo(table, s, c)
      requires c in table && !r.target.Jump?
      modifies this`table, this`tick, this`trace
      ensures Valid() && tick >= old(tick) && old(trace) <= trace
      ensures table == old(table)[c := old(table)[c] + [r]] || (!ok && table == old(table))
      ensures ok ==> Loadable(old(table), r)
      ensures Clean(old(tick), tick) && Loadable(old(table), r) ==> ok
    {
      GrowSafe(ctx, table, inbound, c, r);
      var status := Run(Append(c, r));
      ok := status == Done;
    }

    /** point_parent_to_child: one -R, or one -A on an empty parent. */
    method PointParent(inbound: bool, s: Side, c: string) returns (ok: bool)
      requires Valid() && s == SideOf(ctx, inbound) && IsChild(s, c)
      requires s.parent in table && c in table && table[c] == Goal(ctx, inbound)
      modifies this`table, this`tick, this`trace
      ensures Valid() && tick >= old(tick) && old(trace) <= trace
      ensures table == old(table) || table == old(table)[s.parent := [JumpTo(c)]]
      ensures ok ==> table == old(table)[s.parent := [JumpTo(c)]]
      ensures Clean(old(tick), tick) ==> ok
    {
      SwapCommands(ctx, table, inbound, c);
      ok := List();
      if !ok {
        return;
      }
      var status: Status;
      if table[s.parent] != [] {
        status := Run(ReplaceFirst(s.parent, JumpTo(c)));
        if status == Done {
          DropRest(s.parent);
        }
      } else {
        status := Run(Append(s.parent, JumpTo(c)));
      }
      ok := status == Done;
    }

    /** Deletes second rules until the command fails; a parent never holds a second rule. */
    method DropRest(parent: string)
      requires Valid() && parent in table && |table[parent]| == 1
      modifies this`table, this`tick, this`trace
      ensures Valid() && tick >= old(tick) && old(trace) <= trace && table == old(table)
    {
      var more := true;
      while more
        invariant Valid() && tick >= old(tick) && old(trace) <= trace && table == old(table)
        decreases more
      {
        NoSecondRule(table, parent);
        var status := Run(DeleteSecond(parent));
        more := status == Done;
      }
    }

    /** ensure_jump_rule: insert at the top of FORWARD unless -C finds the rule. */
    method EnsureJump(inbound: bool, s: Side, key: JumpKey) returns (ok: bool)
      requires Valid() && s == SideOf(ctx, inbound) && s.parent in table
      modifies this`table, this`tick, this`trace
      ensures Valid() && tick >= old(tick) && old(trace) <= trace
      ensures table == old(table) || table == WithJump(old(table), inbound, key, s.parent)
      ensures ok ==> JumpRule(inbound, key, s.parent) in table[FORWARD]
      ensures Clean(old(tick), tick) ==> ok
    {
      JumpCommands(ctx, table, inbound, key);
      var status := Run(Check(FORWARD, JumpRule(inbound, key, s.parent)));
      if status == Done {
        return true;
      }
      status := Run(InsertFirst(FORWARD, JumpRule(inbound, key, s.parent)));
      ok := status == Done;
    }

    /** The first loop of sync_forward_jump_rules: every desired jump is present. */
    method EnsureJumps(inbound: bool, s: Side, keys: seq<JumpKey>) returns (ok: bool)
      requires Valid() && s == SideOf(ctx, inbound) && s.parent in table
      modifies this`table, this`tick, this`trace
      ensures Valid() && tick >= old(tick) && old(trace) <= trace
      ensures OnlyJumpsAdded(inbound, s.parent, keys, Quiet(ctx, inbound), old(table), table)
      ensures ok ==> Present(inbound, s.parent, keys, table[FORWARD])
      ensures Clean(old(tick), tick) ==> ok
    {
      ok := true;
      for i := 0 to |keys|
        invariant Valid() && tick >= old(tick) && old(trace) <= trace && s.parent in table
        invariant OnlyJumpsAdded(inbound, s.parent, keys, Quiet(ctx, inbound), old(table), table)
        invariant Present(inbound, s.parent, keys[..i], table[FORWARD])
      {
        ghost var before := table;
        ok := EnsureJump(inbound, s, keys[i]);
        InsertJumpSafe(ctx, before, inbound, keys[i]);
        JumpAdded(inbound, s.parent, keys, i, Quiet(ctx, inbound), old(table), before, table);
        if !ok {
          return;
        }
      }
      assert keys[..|keys|] == keys;
    }

    /** The second loop of sync_forward_jump_rules: stale jumps go, the first failure aborts. */
    method DeleteStale(inbound: bool, s: Side, keys: seq<JumpKey>, ghost keep: Rule -> bool) returns (ok: bool)
      requires Valid() && s == SideOf(ctx, inbound) && ReadsText(ctx)
      requires Judges(keep, inbound, s.parent, keys)
      modifies this`table, this`tick, this`trace
      ensures Valid() && tick >= old(tick) && old(trace) <= trace
      ensures Thinned(Quiet(ctx, inbound), old(table), table)
      ensures ok ==> table[FORWARD] == Filter(old(table)[FORWARD], keep)
      ensures Clean(old(tick), tick) ==> ok
    {
      ok := List();
      if !ok {
        return;
      }
      var rules := table[FORWARD];
      assert Filter([], keep) + rules == rules;
      for i := 0 to |rules|
        invariant Valid() && tick >= old(tick) && old(trace) <= trace
        invariant Thinned(Quiet(ctx, inbound), old(table), table)
        invariant ok && table[FORWARD] == Filter(rules[..i], keep) + rules[i..]
      {
        FilterStep(rules, i, keep);
        var stale := IsStale(inbound, s.parent, keys, rules[i], keep, Quiet(ctx, inbound));
        if stale {
          ghost var before := table;
          ok := DeleteLine(inbound, rules, i, keep);
          ThinnedTwice(Quiet(ctx, inbound), old(table), before, table);
          if !ok {
            return;
          }
        }
      }
      assert rules[..|rules|] == rules && rules[|rules|..] == [];
    }

    /** `-D` with the text of a listed rule that is not kept removes exactly that rule. */
    method DeleteLine(inbound: bool, rules: seq<Rule>, i: nat, ghost keep: Rule -> bool) returns (ok: bool)
      requires Valid() && i < |rules| && !Quiet(ctx, inbound)(rules[i]) && RejectsLine(keep, rules[i])
      requires table[FORWARD] == Filter(rules[..i], keep) + rules[i..]
      modifies this`table, this`tick, this`trace
      ensures Valid() && tick == old(tick) + 1 && old(trace) <= trace
      ensures Thinned(Quiet(ctx, inbound), old(table), table)
      ensures ok ==> table[FORWARD] == Filter(rules[..i + 1], keep) + rules[i + 1..]
      ensures faults(old(tick)) == NoFault ==> ok
    {
      LineDeleted(ctx, table, inbound, rules, i, keep);
      var status := Run(DeleteSpec(FORWARD, Print(rules[i])));
      ok := status == Done;
    }

    /** sync_forward_jump_rules. */
    method SyncForward(inbound: bool, s: Side, keys: seq<JumpKey>) returns (ok: bool)
      requires Valid() && s == SideOf(ctx, inbound) && s.parent in table && ReadsText(ctx)
      modifies this`table, this`tick, this`trace
      ensures Valid() && tick >= old(tick) && old(trace) <= trace
      ensures FORWARD in old(table) && table == old(table)[FORWARD := table[FORWARD]]
      ensures Filter(table[FORWARD], Quiet(ctx, inbound)) == Filter(old(table)[FORWARD], Quiet(ctx, inbound))
      ensures ok ==>
                Becomes(old(table)[FORWARD], table[FORWARD], Keeps(inbound, s.parent, keys),
                        Wants(inbound, s.parent, keys))
      ensures Clean(old(tick), tick) ==> ok
    {
      ok := EnsureJumps(inbound, s, keys);
      if ok {
        ok := FinishForward(inbound, s, keys, old(table));
      }
    }

    /** The deletion half of sync_forward_jump_rules, after the desired jumps were added to `start`. */
    method FinishForward(inbound: bool, s: Side, keys: seq<JumpKey>, ghost start: Table) returns (ok: bool)
      requires Valid() && s == SideOf(ctx, inbound) && ReadsText(ctx)
      requires OnlyJumpsAdded(inbound, s.parent, keys, Quiet(ctx, inbound), start, table)
      requires Present(inbound, s.parent, keys, table[FORWARD])
      modifies this`table, this`tick, this`trace
      ensures Valid() && tick >= old(tick) && old(trace) <= trace
      ensures FORWARD in start && table == start[FORWARD := table[FORWARD]]
      ensures Filter(table[FORWARD], Quiet(ctx, inbound)) == Filter(start[FORWARD], Quiet(ctx, inbound))
      ensures ok ==>
                Becomes(start[FORWARD], table[FORWARD], Keeps(inbound, s.parent, keys), Wants(inbound, s.parent, keys))
      ensures Clean(old(tick), tick) ==> ok
    {
      ok := DeleteLines(inbound, s, keys);
      ForwardDone(inbound, s.parent, keys, Quiet(ctx, inbound), start, old(table), table, ok);
    }

    /** The lines that remain are exactly those the text comparison keeps. */
    method DeleteLines(inbound: bool, s: Side, keys: seq<JumpKey>) returns (ok: bool)
      requires Valid() && s == SideOf(ctx, inbound) && ReadsText(ctx)
      modifies this`table, this`tick, this`trace
      ensures Valid() && tick >= old(tick) && old(trace) <= trace
      ensures Thinned(Quiet(ctx, inbound), old(table), table)
      ensures ok ==> KeptOnly(old(table)[FORWARD], table[FORWARD], Keeps(inbound, s.parent, keys))
      ensures Clean(old(tick), tick) ==> ok
    {
      ghost var keep := Judge(inbound, s.parent, keys);
      ok := DeleteStale(inbound, s, keys, keep);
      if ok {
        JudgedMembers(inbound, s.parent, keys, keep, old(table)[FORWARD], table[FORWARD]);
      }
    }

    /** delete_chain_if_exists: both commands' failures are ignored. */
    method DeleteIfExists(inbound: bool, s: Side, c: string) returns (ok: bool)
      requires Valid() && s == SideOf(ctx, inbound) && !Apart(s, c)
      requires (IsChild(s, c) && !PointsTo(table, s, c)) || (ctx.goalIn == [] && ctx.goalOut == [])
      modifies this`table, this`tick, this`trace
      ensures Valid() && tick >= old(tick) && old(trace) <= trace
      ensures SameExcept(c, old(table), table) && (c !in old(table) ==> table == old(table))
      ensures Clean(old(tick), tick) ==> ok && (Referenced(table, c) || c !in table)
    {
      ok := List();
      if !ok || c !in table {
        return;
      }
      EmptySafe(ctx, table, inbound, c);
      FlushDelete(c);
    }

    /** `-F` then `-X`, ignoring both results. */
    method FlushDelete(c: string)
      requires Valid() && !Foreign(ctx, c) && c != FORWARD && (c in table ==> Safe(ctx, table[c := []]))
      modifies this`table, this`tick, this`trace
      ensures Valid() && tick >= old(tick) && old(trace) <= trace
      ensures SameExcept(c, old(table), table)
      ensures Clean(old(tick), tick) ==> Referenced(table, c) || c !in table
    {
      var status := Run(Flush(c));
      assert table == old(table) || table == old(table)[c := []];
      DeleteCommandSafe(ctx, table, c);
      status := Run(DeleteChain(c));
    }

    /** The deletion loop of remove_forward_rules_referencing, which ignores failures. */
    method DropJumps(inbound: bool, s: Side) returns (ok: bool)
      requires Valid() && s == SideOf(ctx, inbound) && ReadsText(ctx)
      modifies this`table, this`tick, this`trace
      ensures Valid() && tick >= old(tick) && old(trace) <= trace
      ensures Thinned(Quiet(ctx, inbound), old(table), table)
      ensures Clean(old(tick), tick) ==> ok && table[FORWARD] == Filter(old(table)[FORWARD], Quiet(ctx, inbound))
    {
      ok := List();
      if ok {
        DropEach(inbound, s, table[FORWARD]);
      }
    }

    method DropEach(inbound: bool, s: Side, rules: seq<Rule>)
      requires Valid() && s == SideOf(ctx, inbound) && ReadsText(ctx) && rules == table[FORWARD]
      modifies this`table, this`tick, this`trace
      ensures Valid() && tick >= old(tick) && old(trace) <= trace
      ensures Thinned(Quiet(ctx, inbound), old(table), table)
      ensures Clean(old(tick), tick) ==> table[FORWARD] == Filter(rules, Quiet(ctx, inbound))
    {
      ghost var quiet := Quiet(ctx, inbound);
      assert Filter([], quiet) + rules == rules;
      for i := 0 to |rules|
        invariant Valid() && tick >= old(tick) && old(trace) <= trace
        invariant Thinned(quiet, old(table), table)
        invariant Clean(old(tick), tick) ==> table[FORWARD] == Filter(rules[..i], quiet) + rules[i..]
      {
        ghost var before, from := table, tick;
        DropIfMentioned(inbound, s, rules, i, Clean(old(tick), tick));
        ThinnedTwice(quiet, old(table), before, table);
        assert Clean(old(tick), tick) ==> Clean(old(tick), from) && Clean(from, tick);
      }
      assert rules[..|rules|] == rules && rules[|rules|..] == [];
    }

    method DropIfMentioned(inbound: bool, s: Side, rules: seq<Rule>, i: nat, ghost clean: bool)
      requires Valid() && s == SideOf(ctx, inbound) && ReadsText(ctx) && i < |rules|
      requires clean ==> table[FORWARD] == Filter(rules[..i], Quiet(ctx, inbound)) + rules[i..]
      modifies this`table, this`tick, this`trace
      ensures Valid() && tick >= old(tick) && old(trace) <= trace
      ensures table == old(table) || Thinned(Quiet(ctx, inbound), old(table), table)
      ensures clean && Clean(old(tick), tick) ==>
                table[FORWARD] == Filter(rules[..i + 1], Quiet(ctx, inbound)) + rules[i + 1..]
    {
      FilterStep(rules, i, Quiet(ctx, inbound));
      var mentioned := IsMentioned(s.parent, rules[i], Quiet(ctx, inbound));
      if mentioned {
        DropLine(inbound, rules, i, clean);
      }
    }

    /** The same deletion when earlier ones may have failed silently. */
    method DropLine(inbound: bool, rules: seq<Rule>, i: nat, ghost clean: bool)
      requires Valid() && ReadsText(ctx) && i < |rules| && RejectsLine(Quiet(ctx, inbound), rules[i])
      requires clean ==> table[FORWARD] == Filter(rules[..i], Quiet(ctx, inbound)) + rules[i..]
      modifies this`table, this`tick, this`trace
      ensures Valid() && tick == old(tick) + 1 && old(trace) <= trace
      ensures table == old(table) || Thinned(Quiet(ctx, inbound), old(table), table)
      ensures clean && faults(old(tick)) == NoFault
              ==> table[FORWARD] == Filter(rules[..i + 1], Quiet(ctx, inbound)) + rules[i + 1..]
    {
      AnyLineDeleted(ctx, table, inbound, rules[i]);
      if clean {
        LineDeleted(ctx, table, inbound, rules, i, Quiet(ctx, inbound));
      }
      var status := Run(DeleteSpec(FORWARD, Print(rules[i])));
    }

    /** remove_forward_rules_referencing. */
    method RemoveReferences(inbound: bool, s: Side) returns (ok: bool)
      requires Valid() && s == SideOf(ctx, inbound) && ReadsText(ctx) && ctx.goalIn == [] && ctx.goalOut == []
      modifies this`table, this`tick, this`trace
      ensures Valid() && tick >= old(tick) && old(trace) <= trace
      ensures Clean(old(tick), tick) ==> ok && s.parent !in table
      ensures Clean(old(tick), tick) ==>
                FORWARD in old(table) && table[FORWARD] == Filter(old(table)[FORWARD], Quiet(ctx, inbound))
      ensures forall d :: d != s.parent && d != FORWARD ==>
                (d in old(table) <==> d in table) && (d in table ==> table[d] == old(table)[d])
    {
      ok := DropJumps(inbound, s);
      if !ok {
        return;
      }
      ghost var mid := table;
      if s.parent in table {
        FlushSafe(ctx, table, inbound, s.parent);
      }
      FlushDelete(s.parent);
      if Clean(old(tick), tick) {
        QuietIsUnreferenced(ctx, table, inbound, old(table)[FORWARD]);
      }
    }

    /** Deletes the two children of a side whose parent is already gone. */
    method DeleteChildren(inbound: bool, s: Side) returns (ok: bool)
      requires Valid() && s == SideOf(ctx, inbound) && ctx.goalIn == [] && ctx.goalOut == []
      modifies this`table, this`tick, this`trace
      ensures Valid() && tick >= old(tick) && old(trace) <= trace
      ensures forall d :: d != s.a && d != s.b ==>
                (d in old(table) <==> d in table) && (d in table ==> table[d] == old(table)[d])
      ensures Clean(old(tick), tick) ==> ok && (s.parent !in old(table) ==> s.a !in table && s.b !in table)
    {
      ok := DeleteIfExists(inbound, s, s.a);
      if s.parent !in table {
        OrphanUnreferenced(ctx, table, inbound, s.a);
      }
      if !ok {
        return;
      }
      ok := DeleteIfExists(inbound, s, s.b);
      if s.parent !in table {
        OrphanUnreferenced(ctx, table, inbound, s.b);
      }
    }

    /** The first half of teardown_vm_firewall: no rule jumps to either parent, and both parents go. */
    method DropParents(ins: Side, outs: Side) returns (ok: bool)
      requires Valid() && ins == ctx.ins && outs == ctx.outs && ReadsText(ctx) && ctx.goalIn == [] && ctx.goalOut == []
      modifies this`table, this`tick, this`trace
      ensures Valid() && tick >= old(tick) && old(trace) <= trace
      ensures Clean(old(tick), tick) ==> ok && ins.parent !in table && outs.parent !in table && ForwardQuiet(ctx, table)
    {
      ok := RemoveReferences(false, outs);
      if !ok {
        return;
      }
      ghost var first := table[FORWARD];
      ok := RemoveReferences(true, ins);
      if Clean(old(tick), tick) {
        AllQuiet(ctx, old(table)[FORWARD], first, table[FORWARD]);
      }
    }

    method DeleteParents(ins: Side, outs: Side) returns (ok: bool)
      requires Valid() && ins == ctx.ins && outs == ctx.outs && ctx.goalIn == [] && ctx.goalOut == []
      modifies this`table, this`tick, this`trace
      ensures Valid() && tick >= old(tick) && old(trace) <= trace
      ensures Clean(old(tick), tick) ==> ok
      ensures ins.parent !in old(table) && outs.parent !in old(table) ==> table == old(table)
    {
      ok := DeleteIfExists(false, outs, outs.parent);
      if ok {
        ok := DeleteIfExists(true, ins, ins.parent);
      }
    }

    method DeleteAllChildren(ins: Side, outs: Side) returns (ok: bool)
      requires Valid() && ins == ctx.ins && outs == ctx.outs && ctx.goalIn == [] && ctx.goalOut == []
      modifies this`table, this`tick, this`trace
      ensures Valid() && tick >= old(tick) && old(trace) <= trace
      ensures Clean(old(tick), tick) ==> ok
      ensures ins.parent !in old(table) && outs.parent !in old(table) && ForwardQuiet(ctx, old(table)) ==>
                Clean(old(tick), tick) ==> Gone(ctx, table)
    {
      ok := DeleteChildren(false, outs);
      if ok {
        ok := DeleteChildren(true, ins);
      }
    }

    /** teardown_vm_firewall. */
    method Teardown(ins: Side, outs: Side) returns (ok: bool)
      requires Valid() && ins == ctx.ins && outs == ctx.outs && ReadsText(ctx) && ctx.goalIn == [] && ctx.goalOut == []
      modifies this`table, this`tick, this`trace
      ensures Valid() && tick >= old(tick) && old(trace) <= trace
      ensures Clean(old(tick), tick) ==> ok && Gone(ctx, table)
    {
      ok := DropParents(ins, outs);
      if ok {
        ok := DeleteParents(ins, outs);
      }
      if ok {
        ok := DeleteAllChildren(ins, outs);
      }
    }

    /** One child is chosen, created if need be and emptied, ready to be filled. */
    method Prepare(ins: Side, outs: Side) returns (ok: bool, nextIn: string, nextOut: string)
      requires Valid() && ins == ctx.ins && outs == ctx.outs
      modifies this`table, this`tick, this`trace
      ensures Valid() && tick >= old(tick) && old(trace) <= trace
      ensures SameForward(old(table), table)
      ensures ok ==> Spare(table, ins, nextIn) && Spare(table, outs, nextOut)
      ensures ok ==> ins.parent in table && outs.parent in table && table[nextIn] == [] && table[nextOut] == []
      ensures Clean(old(tick), tick) ==> ok
    {
      nextIn, nextOut := ins.a, outs.a;
      ok := EnsureChain(false, outs.parent);
      if ok {
        ok := EnsureChain(true, ins.parent);
      }
      if ok {
        ok, nextOut := NextChild(false, outs);
      }
      if ok {
        ok, nextIn := NextChild(true, ins);
      }
      if ok {
        ok := EnsureBoth(ins, outs, nextIn, nextOut);
      }
      if ok {
        ok := FlushBoth(ins, outs, nextIn, nextOut);
      }
    }

    method EnsureBoth(ins: Side, outs: Side, nextIn: string, nextOut: string) returns (ok: bool)
      requires Valid() && ins == ctx.ins && outs == ctx.outs
      requires IsChild(ins, nextIn) && !PointsTo(table, ins, nextIn)
      requires IsChild(outs, nextOut) && !PointsTo(table, outs, nextOut)
      modifies this`table, this`tick, this`trace
      ensures Valid() && tick >= old(tick) && old(trace) <= trace
      ensures SameForward(old(table), table)
      ensures ok ==> Spare(table, ins, nextIn) && Spare(table, outs, nextOut)
      ensures ParentsSame(ins, outs, old(table), table)
      ensures Clean(old(tick), tick) ==> ok
    {
      NewSpare(ctx, table, false, nextOut);
      ok := EnsureChain(false, nextOut);
      assert !PointsTo(table, outs, nextOut) && !PointsTo(table, ins, nextIn);
      if ok {
        NewSpare(ctx, table, true, nextIn);
        ok := EnsureChain(true, nextIn);
      }
    }

    method FlushBoth(ins: Side, outs: Side, nextIn: string, nextOut: string) returns (ok: bool)
      requires Valid() && ins == ctx.ins && outs == ctx.outs
      requires Spare(table, ins, nextIn) && Spare(table, outs, nextOut)
      modifies this`table, this`tick, this`trace
      ensures Valid() && tick >= old(tick) && old(trace) <= trace
      ensures SameForward(old(table), table)
      ensures ok ==>
                Spare(table, ins, nextIn) && Spare(table, outs, nextOut) && table[nextIn] == [] && table[nextOut] == []
      ensures ParentsSame(ins, outs, old(table), table)
      ensures Clean(old(tick), tick) ==> ok
    {
      ok := FlushSpare(false, outs, nextOut);
      if ok {
        ok := FlushSpare(true, ins, nextIn);
      }
    }

    method AppendIn(n: Next, r: Rule) returns (ok: bool)
      requires Valid() && Filling(ctx, table, n) && !r.target.Jump?
      modifies this`table, this`tick, this`trace
      ensures Valid() && tick >= old(tick) && old(trace) <= trace && Filling(ctx, table, n)
      ensures SameForward(old(table), table)
      ensures ok ==> table[n.nextIn] == old(table)[n.nextIn] + [r] && table[n.nextOut] == old(table)[n.nextOut]
      ensures ok ==> Loadable(old(table), r)
      ensures Clean(old(tick), tick) && Loadable(old(table), r) ==> ok
    {
      ok := AppendSpare(true, n.ins, n.nextIn, r);
    }

    method AppendOut(n: Next, r: Rule) returns (ok: bool)
      requires Valid() && Filling(ctx, table, n) && !r.target.Jump?
      modifies this`table, this`tick, this`trace
      ensures Valid() && tick >= old(tick) && old(trace) <= trace && Filling(ctx, table, n)
      ensures SameForward(old(table), table)
      ensures ok ==> table[n.nextOut] == old(table)[n.nextOut] + [r] && table[n.nextIn] == old(table)[n.nextIn]
      ensures ok ==> Loadable(old(table), r)
      ensures Clean(old(tick), tick) && Loadable(old(table), r) ==> ok
    {
      ok := AppendSpare(false, n.outs, n.nextOut, r);
    }

    /** One security-group rule: checked, then appended to the child of its direction. */
    method AddRule(n: Next, r: FwRule, ghost done: seq<FwRule>) returns (ok: bool)
      requires Valid() && Filling(ctx, table, n) && Filled(table, n, done)
      modifies this`table, this`tick, this`trace
      ensures Valid() && tick >= old(tick) && old(trace) <= trace && Filling(ctx, table, n)
      ensures SameForward(old(table), table)
      ensures ok ==> Filled(table, n, done + [r]) && ValidRule(r)
      ensures Clean(old(tick), tick) && ValidRule(r) ==> ok
    {
      if r.cidr != "" && !ValidIpv4Cidr(r.cidr) {
        return false;
      }
      LowerOne(done, r, Ingress);
      LowerOne(done, r, Egress);
      if DirectionOf(r) == Ingress {
        ok := AppendIn(n, Translate(r));
      } else {
        ok := AppendOut(n, Translate(r));
      }
    }

    method AddInterface(n: Next, iface: Interface, ghost done: seq<FwRule>, hasEgress: bool)
        returns (ok: bool, hasEgress': bool)
      requires Valid() && Filling(ctx, table, n) && Filled(table, n, done) && hasEgress == HasEgress(done)
      modifies this`table, this`tick, this`trace
      ensures Valid() && tick >= old(tick) && old(trace) <= trace && Filling(ctx, table, n)
      ensures SameForward(old(table), table)
      ensures ok ==>
                Filled(table, n, done + iface.rules) && ValidInterface(iface)
                  && hasEgress' == HasEgress(done + iface.rules)
      ensures Clean(old(tick), tick) && ValidInterface(iface) ==> ok
    {
      if !ValidIfaceName(iface.bridge) || !ValidIpv4Address(iface.ip) {
        return false, hasEgress;
      }
      ok, hasEgress' := AddRules(n, iface.rules, done, hasEgress);
    }

    method AddRules(n: Next, rules: seq<FwRule>, ghost done: seq<FwRule>, hasEgress: bool)
        returns (ok: bool, hasEgress': bool)
      requires Valid() && Filling(ctx, table, n) && Filled(table, n, done) && hasEgress == HasEgress(done)
      modifies this`table, this`tick, this`trace
      ensures Valid() && tick >= old(tick) && old(trace) <= trace && Filling(ctx, table, n)
      ensures SameForward(old(table), table)
      ensures ok ==> Filled(table, n, done + rules) && ValidRules(rules) && hasEgress' == HasEgress(done + rules)
      ensures Clean(old(tick), tick) && ValidRules(rules) ==> ok
    {
      ok, hasEgress' := true, hasEgress;
      assert done + rules[..0] == done;
      for j := 0 to |rules|
        invariant Valid() && tick >= old(tick) && old(trace) <= trace && Filling(ctx, table, n)
        invariant SameForward(old(table), table)
        invariant Filled(table, n, done + rules[..j]) && hasEgress' == HasEgress(done + rules[..j])
        invariant ok && ValidRules(rules[..j])
      {
        RulesGrow(done, rules, j);
        hasEgress' := hasEgress' || DirectionOf(rules[j]) == Egress;
        ok := AddRule(n, rules[j], done + rules[..j]);
        if !ok {
          return;
        }
      }
      assert rules[..|rules|] == rules;
    }

    method AddInterfaces(n: Next, ifs: seq<Interface>) returns (ok: bool, hasEgress: bool)
      requires Valid() && Filling(ctx, table, n) && Filled(table, n, [])
      modifies this`table, this`tick, this`trace
      ensures Valid() && tick >= old(tick) && old(trace) <= trace && Filling(ctx, table, n)
      ensures SameForward(old(table), table)
      ensures ok ==> Filled(table, n, AllRules(ifs)) && ValidRequest(ifs) && hasEgress == HasEgress(AllRules(ifs))
      ensures Clean(old(tick), tick) && ValidRequest(ifs) ==> ok
    {
      ok, hasEgress := true, false;
      for i := 0 to |ifs|
        invariant Valid() && tick >= old(tick) && old(trace) <= trace && Filling(ctx, table, n)
        invariant SameForward(old(table), table)
        invariant Filled(table, n, AllRules(ifs[..i])) && hasEgress == HasEgress(AllRules(ifs[..i]))
        invariant ValidRequest(ifs[..i]) && ok
      {
        assert ifs[..i + 1][..i] == ifs[..i];
        ok, hasEgress := AddInterface(n, ifs[i], AllRules(ifs[..i]), hasEgress);
        if !ok {
          return;
        }
      }
      assert ifs[..|ifs|] == ifs;
    }

    /** The children end up holding exactly the compiled rule lists. */
    method Build(n: Next, ifs: seq<Interface>) returns (ok: bool)
      requires Valid() && Filling(ctx, table, n) && table[n.nextIn] == [] && table[n.nextOut] == []
      modifies this`table, this`tick, this`trace
      ensures Valid() && tick >= old(tick) && old(trace) <= trace && Filling(ctx, table, n)
      ensures SameForward(old(table), table)
      ensures ok ==> table[n.nextIn] == CompileIn(ifs) && table[n.nextOut] == CompileOut(ifs) && ValidRequest(ifs)
      ensures Clean(old(tick), tick) && ValidRequest(ifs) ==> ok
    {
      ok := Begin(n);
      if !ok {
        return;
      }
      var hasEgress: bool;
      ok, hasEgress := AddInterfaces(n, ifs);
      if ok {
        ok := Finish(n, AllRules(ifs), hasEgress);
      }
    }

    method Begin(n: Next) returns (ok: bool)
      requires Valid() && Filling(ctx, table, n) && table[n.nextIn] == [] && table[n.nextOut] == []
      modifies this`table, this`tick, this`trace
      ensures Valid() && tick >= old(tick) && old(trace) <= trace && Filling(ctx, table, n)
      ensures SameForward(old(table), table)
      ensures ok ==> Filled(table, n, [])
      ensures Clean(old(tick), tick) ==> ok
    {
      ok := AppendIn(n, ESTABLISHED);
      if ok {
        ok := AppendOut(n, ESTABLISHED);
      }
    }

    method Finish(n: Next, ghost rules: seq<FwRule>, hasEgress: bool) returns (ok: bool)
      requires Valid() && Filling(ctx, table, n) && Filled(table, n, rules)
      modifies this`table, this`tick, this`trace
      ensures Valid() && tick >= old(tick) && old(trace) <= trace && Filling(ctx, table, n)
      ensures SameForward(old(table), table)
      ensures ok ==> table[n.nextIn] == [ESTABLISHED] + Lower(rules, Ingress) + [ANY.(target := Drop)]
      ensures ok ==>
                table[n.nextOut] ==
                [ESTABLISHED] + Lower(rules, Egress) + [ANY.(target := if hasEgress then Drop else Accept)]
      ensures Clean(old(tick), tick) ==> ok
    {
      ok := AppendIn(n, ANY.(target := Drop));
      if ok {
        ok := AppendOut(n, ANY.(target := if hasEgress then Drop else Accept));
      }
    }

    /** Both parents are swung onto their freshly built children, inbound first. */
    method SwapBoth(n: Next) returns (ok: bool)
      requires Valid() && Filling(ctx, table, n) && table[n.nextIn] == ctx.goalIn && table[n.nextOut] == ctx.goalOut
      modifies this`table, this`tick, this`trace
      ensures Valid() && tick >= old(tick) && old(trace) <= trace
      ensures SameForward(old(table), table)
      ensures ok ==> Swapped(ctx, table, n)
      ensures Clean(old(tick), tick) ==> ok
    {
      ok := PointParent(true, n.ins, n.nextIn);
      if ok {
        ok := PointParent(false, n.outs, n.nextOut);
      }
    }

    /** Jumps from FORWARD are reconciled, inbound first. */
    method SyncJumps(n: Next, keys: seq<JumpKey>) returns (ok: bool)
      requires Valid() && ReadsText(ctx) && Swapped(ctx, table, n) && forall k :: k in keys ==> ValidKey(k)
      requires ParentsApart(n.ins.parent, n.outs.parent)
      modifies this`table, this`tick, this`trace
      ensures Valid() && tick >= old(tick) && old(trace) <= trace && Swapped(ctx, table, n)
      ensures ok ==> FORWARD in old(table) && BothReconciled(n, keys, old(table)[FORWARD], table[FORWARD])
      ensures Clean(old(tick), tick) ==> ok
    {
      ok := SyncForward(true, n.ins, keys);
      if !ok {
        return;
      }
      ghost var mid := table[FORWARD];
      ok := SyncForward(false, n.outs, keys);
      if ok {
        InboundSurvives(n, keys, old(table)[FORWARD], mid, table[FORWARD]);
      }
    }

    method DeleteStaleChild(n: Next, inbound: bool) returns (ok: bool)
      requires Valid() && Swapped(ctx, table, n)
      modifies this`table, this`tick, this`trace
      ensures Valid() && tick >= old(tick) && old(trace) <= trace && Swapped(ctx, table, n)
      ensures SameExcept(n.Stale(inbound), old(table), table)
      ensures Clean(old(tick), tick) ==> ok && n.Stale(inbound) !in table
    {
      StaleUnreferenced(ctx, table, inbound, n.Fresh(inbound));
      ok := DeleteIfExists(inbound, if inbound then n.ins else n.outs, n.Stale(inbound));
      StaleUnreferenced(ctx, table, inbound, n.Fresh(inbound));
    }

    method DeleteStaleChildren(n: Next) returns (ok: bool)
      requires Valid() && Swapped(ctx, table, n)
      modifies this`table, this`tick, this`trace
      ensures Valid() && tick >= old(tick) && old(trace) <= trace && Swapped(ctx, table, n)
      ensures FORWARD in old(table) && table[FORWARD] == old(table)[FORWARD]
      ensures Clean(old(tick), tick) ==> ok && Other(n.ins, n.nextIn) !in table && Other(n.outs, n.nextOut) !in table
    {
      ok := DeleteStaleChild(n, true);
      if ok {
        ok := DeleteStaleChild(n, false);
      }
    }

    /** Everything up to the swap: choose, fill and switch to the new children. */
    method Install(ins: Side, outs: Side, ifs: seq<Interface>) returns (ok: bool, n: Next)
      requires Valid() && ins == ctx.ins && outs == ctx.outs
      requires ctx.goalIn == CompileIn(ifs) && ctx.goalOut == CompileOut(ifs)
      modifies this`table, this`tick, this`trace
      ensures Valid() && tick >= old(tick) && old(trace) <= trace
      ensures SameForward(old(table), table)
      ensures ok ==> Swapped(ctx, table, n) && ValidRequest(ifs)
      ensures Clean(old(tick), tick) && ValidRequest(ifs) ==> ok
    {
      var nextIn, nextOut;
      ok, nextIn, nextOut := Prepare(ins, outs);
      n := Next(ins, outs, nextIn, nextOut);
      if ok {
        ok := Build(n, ifs);
      }
      if ok {
        ok := SwapBoth(n);
      }
    }

    /** The rest of sync_vm_firewall: jumps from FORWARD, then the stale children. */
    method Settle(n: Next, ifs: seq<Interface>) returns (ok: bool)
      requires Valid() && ReadsText(ctx) && Swapped(ctx, table, n) && ValidRequest(ifs)
      requires ParentsApart(n.ins.parent, n.outs.parent)
      modifies this`table, this`tick, this`trace
      ensures Valid() && tick >= old(tick) && old(trace) <= trace
      ensures ok ==>
                Swapped(ctx, table, n) && FORWARD in old(table)
                  && BothReconciled(n, KeysOf(ifs), old(table)[FORWARD], table[FORWARD])
      ensures Clean(old(tick), tick) ==> ok && Other(n.ins, n.nextIn) !in table && Other(n.outs, n.nextOut) !in table
    {
      KeysValid(ifs);
      ok := SyncJumps(n, KeysOf(ifs));
      if ok {
        ok := DeleteStaleChildren(n);
      }
    }

    /**
     * sync_vm_firewall. Whatever fails and wherever it stops, every table left
     * behind by a command is safe; without failures it succeeds exactly on the
     * valid requests, and success means the request is in force.
     */
    method Sync(vm: string, ifs: seq<Interface>) returns (ok: bool)
      requires Ready(table, vm)
      modifies this
      ensures tick >= old(tick) && old(trace) <= trace
      ensures AllSafe(CtxFor(old(table), vm, ifs), trace[|old(trace)|..]) && Safe(CtxFor(old(table), vm, ifs), table)
      ensures Ready(table, vm)
      ensures ok && ifs != [] ==> InForce(table, vm, ifs)
      ensures ok && ifs != [] ==> JumpsReconciled(old(table), table, vm, ifs) && AllGuarded(table, vm, ifs)
      ensures Clean(old(tick), tick) ==> (ok <==> ValidRequest(ifs))
      ensures Clean(old(tick), tick) && ifs == [] ==> Gone(CtxFor(old(table), vm, ifs), table)
      ensures Clean(old(tick), tick) && ifs != [] && ok ==> OneChild(table, InSide(vm)) && OneChild(table, OutSide(vm))
    {
      Start(vm, ifs);
      if ifs == [] {
        ok := Teardown(InSide(vm), OutSide(vm));
        return;
      }
      ok := Replace(vm, ifs);
    }

    /** sync_vm_firewall for a VM with interfaces. */
    method Replace(vm: string, ifs: seq<Interface>) returns (ok: bool)
      requires Valid() && ReadsText(ctx) && ParentsApart(InSide(vm).parent, OutSide(vm).parent)
      requires ctx.ins == InSide(vm) && ctx.outs == OutSide(vm) && ctx.goalIn == CompileIn(ifs)
               && ctx.goalOut == CompileOut(ifs)
      modifies this`table, this`tick, this`trace
      ensures Valid() && tick >= old(tick) && old(trace) <= trace
      ensures ok ==> InForce(table, vm, ifs)
      ensures ok ==> JumpsReconciled(old(table), table, vm, ifs) && AllGuarded(table, vm, ifs)
      ensures Clean(old(tick), tick) ==> (ok <==> ValidRequest(ifs))
      ensures Clean(old(tick), tick) && ok ==> OneChild(table, InSide(vm)) && OneChild(table, OutSide(vm))
    {
      var n;
      ok, n := Install(InSide(vm), OutSide(vm), ifs);
      if ok {
        ghost var mid := table;
        ok := Settle(n, ifs);
        if ok {
          BothAreReconciled(n, vm, ifs, mid, table);
        }
      }
    }

    ghost method Start(vm: string, ifs: seq<Interface>)
      requires Ready(table, vm)
      modifies this`ctx, this`mark, this`safe
      ensures Valid() && ctx == CtxFor(table, vm, ifs) && mark == |trace|
      ensures ReadsText(ctx) && ParentsApart(InSide(vm).parent, OutSide(vm).parent)
    {
      StartSafe(table, vm, ifs);
      ctx, mark := CtxFor(table, vm, ifs), |trace|;
      ghost var c := ctx;
      safe := (t: Table) => Safe(c, t);
    }
  }

  /** The table is one that synchronisations of this VM may start from or leave behind. */
  ghost predicate Ready(t: Table, vm: string) {
    FORWARD in t && WellFormed(t, InSide(vm)) && WellFormed(t, OutSide(vm))
  }

  ghost predicate InForce(t: Table, vm: string, ifs: seq<Interface>) {
    && InSide(vm).parent in t && OutSide(vm).parent in t
    && Effective(t, InSide(vm)) == CompileIn(ifs) && Effective(t, OutSide(vm)) == CompileOut(ifs)
  }

  /** The rule is the inbound or the outbound jump of one of the request's interfaces. */
  predicate ForInterface(vm: string, ifs: seq<Interface>, r: Rule) {
    exists f :: f in ifs && (r == JumpRule(true, JumpKey(f.bridge, f.ip), InSide(vm).parent)
                             || r == JumpRule(false, JumpKey(f.bridge, f.ip), OutSide(vm).parent))
  }

  /** FORWARD holds, as a set, exactly the interfaces' jumps and the earlier rules that reconciliation keeps. */
  ghost predicate JumpsReconciled(t: Table, t': Table, vm: string, ifs: seq<Interface>) {
    && FORWARD in t && FORWARD in t'
    && forall r :: r in t'[FORWARD] <==>
        ForInterface(vm, ifs, r) || (r in t[FORWARD] && KeptFor(vm, KeysOf(ifs), r))
  }

  /** Every interface has its jump in both directions. */
  predicate AllGuarded(t: Table, vm: string, ifs: seq<Interface>) {
    FORWARD in t && forall f :: f in ifs ==> Guarded(t[FORWARD], vm, f)
  }

  predicate Guarded(rules: seq<Rule>, vm: string, f: Interface) {
    && JumpRule(true, JumpKey(f.bridge, f.ip), InSide(vm).parent) in rules
    && JumpRule(false, JumpKey(f.bridge, f.ip), OutSide(vm).parent) in rules
  }

  /** There is one key for each interface. */
  lemma KeysMembers(ifs: seq<Interface>, k: JumpKey)
    ensures k in KeysOf(ifs) <==> exists f :: f in ifs && k == JumpKey(f.bridge, f.ip)
  {
    if f :| f in ifs && k == JumpKey(f.bridge, f.ip) {
      var i :| 0 <= i < |ifs| && ifs[i] == f;
      assert KeysOf(ifs)[i] == k;
    }
    if k in KeysOf(ifs) {
      var i :| 0 <= i < |KeysOf(ifs)| && KeysOf(ifs)[i] == k;
      assert ifs[i] in ifs;
    }
  }

  lemma DesiredForInterface(vm: string, ifs: seq<Interface>, r: Rule)
    ensures DesiredOf(vm, KeysOf(ifs), r) <==> ForInterface(vm, ifs, r)
  {
    forall k ensures k in KeysOf(ifs) <==> exists f :: f in ifs && k == JumpKey(f.bridge, f.ip) {
      KeysMembers(ifs, k);
    }
    if f :| f in ifs && (r == JumpRule(true, JumpKey(f.bridge, f.ip), InSide(vm).parent)
                         || r == JumpRule(false, JumpKey(f.bridge, f.ip), OutSide(vm).parent)) {
      assert JumpKey(f.bridge, f.ip) in KeysOf(ifs);
    }
  }

  lemma ReconciledIsGuarded(t: Table, t': Table, vm: string, ifs: seq<Interface>)
    requires JumpsReconciled(t, t', vm, ifs)
    ensures AllGuarded(t', vm, ifs)
  {
    forall f | f in ifs ensures Guarded(t'[FORWARD], vm, f) {
      assert ForInterface(vm, ifs, JumpRule(true, JumpKey(f.bridge, f.ip), InSide(vm).parent));
      assert ForInterface(vm, ifs, JumpRule(false, JumpKey(f.bridge, f.ip), OutSide(vm).parent));
    }
  }

  lemma BothAreReconciled(n: Next, vm: string, ifs: seq<Interface>, t: Table, t': Table)
    requires n.ins == InSide(vm) && n.outs == OutSide(vm) && FORWARD in t && FORWARD in t'
    requires BothReconciled(n, KeysOf(ifs), t[FORWARD], t'[FORWARD])
    ensures JumpsReconciled(t, t', vm, ifs) && AllGuarded(t', vm, ifs)
  {
    var keys := KeysOf(ifs);
    forall r ensures r in t'[FORWARD] <==> ForInterface(vm, ifs, r) || (r in t[FORWARD] && KeptFor(vm, keys, r)) {
      assert Wants(true, n.ins.parent, keys)(r) <==> Desired(true, n.ins.parent, keys, r);
      assert Wants(false, n.outs.parent, keys)(r) <==> Desired(false, n.outs.parent, keys, r);
      assert Keeps(true, n.ins.parent, keys)(r) <==> Kept(true, n.ins.parent, keys, LineTokens(FORWARD, r));
      assert Keeps(false, n.outs.parent, keys)(r) <==> Kept(false, n.outs.parent, keys, LineTokens(FORWARD, r));
      DesiredForInterface(vm, ifs, r);
    }
    ReconciledIsGuarded(t, t', vm, ifs);
  }

  /** The rule is one of the jumps that the VM's interfaces call for. */
  predicate DesiredOf(vm: string, keys: seq<JumpKey>, r: Rule) {
    Desired(true, InSide(vm).parent, keys, r) || Desired(false, OutSide(vm).parent, keys, r)
  }

  /** Neither direction's reconciliation deletes the rule. */
  predicate KeptFor(vm: string, keys: seq<JumpKey>, r: Rule) {
    Kept(true, InSide(vm).parent, keys, LineTokens(FORWARD, r))
      && Kept(false, OutSide(vm).parent, keys, LineTokens(FORWARD, r))
  }

  predicate OneChild(t: Table, s: Side) {
    !(s.a in t && s.b in t)
  }

  lemma KeysValid(ifs: seq<Interface>)
    requires ValidRequest(ifs)
    ensures forall k :: k in KeysOf(ifs) ==> ValidKey(k)
  {
    forall i | 0 <= i < |ifs| ensures ValidKey(KeysOf(ifs)[i]) {
      assert ifs[i] in ifs;
    }
  }

  lemma SilentListens(parent: string)
    ensures Listens(Silent(parent), parent)
    ensures forall r :: Silent(parent)(r) ==> r.target != Jump(parent)
  {
    forall r: Rule | r.target == Jump(parent) ensures !Silent(parent)(r) {
      TargetIsMentioned(r, parent);
    }
  }

  /** A synchronisation starts from a safe state of its own context. */
  lemma StartSafe(t: Table, vm: string, ifs: seq<Interface>)
    requires Ready(t, vm)
    ensures Safe(CtxFor(t, vm, ifs), t) && ReadsText(CtxFor(t, vm, ifs))
    ensures ParentsApart(InSide(vm).parent, OutSide(vm).parent)
  {
    NamesDistinct(vm);
    ParentNames(vm);
    FullNamesDoNotNest(vm, vm);
    SilentListens(InSide(vm).parent);
    SilentListens(OutSide(vm).parent);
  }

  function Other(s: Side, c: string): string {
    if c == s.a then s.b else s.a
  }

  /** Both parents point to the new children, which hold the wanted rules. */
  ghost predicate Swapped(ctx: Ctx, t: Table, n: Next) {
    && n.ins == ctx.ins && n.outs == ctx.outs && IsChild(n.ins, n.nextIn) && IsChild(n.outs, n.nextOut)
    && PointsTo(t, n.ins, n.nextIn) && t[n.nextIn] == ctx.goalIn
    && PointsTo(t, n.outs, n.nextOut) && t[n.nextOut] == ctx.goalOut
  }

  lemma StaleUnreferenced(ctx: Ctx, t: Table, inbound: bool, c: string)
    requires Safe(ctx, t) && IsChild(SideOf(ctx, inbound), c) && PointsTo(t, SideOf(ctx, inbound), c)
    ensures !Referenced(t, Other(SideOf(ctx, inbound), c))
  {
    var s := SideOf(ctx, inbound);
    forall d | d in t ensures !Targets(t[d], Other(s, c)) {
      assert MayHold(s, d, t[d]);
      if d == s.parent {
        assert forall r :: r in t[d] ==> r == JumpTo(c);
      }
    }
    assert JumpTo(c).target != JumpTo(Other(s, c)).target;
  }

  predicate ParentsApart(p: string, q: string) {
    IsParentName(p) && IsParentName(q) && !(p <= q) && !(q <= p)
  }

  ghost predicate BothReconciled(n: Next, keys: seq<JumpKey>, before: seq<Rule>, after: seq<Rule>) {
    forall r :: r in after <==>
      || Wants(true, n.ins.parent, keys)(r) || Wants(false, n.outs.parent, keys)(r)
      || (r in before && Keeps(true, n.ins.parent, keys)(r) && Keeps(false, n.outs.parent, keys)(r))
  }

  ghost predicate Listens(quiet: Rule -> bool, parent: string) {
    forall r {:trigger LineTokens(FORWARD, r)} :: quiet(r) <==> !Mentions(LineTokens(FORWARD, r), parent)
  }

  /** A jump wanted for one direction is never deleted for the other. */
  lemma DesiredElsewhere(inbound: bool, p: string, q: string, keys: seq<JumpKey>, r: Rule)
    requires ParentsApart(p, q) && (forall k :: k in keys ==> ValidKey(k)) && Wants(inbound, p, keys)(r)
    ensures Keeps(!inbound, q, keys)(r)
  {
    var k :| k in keys && r == JumpRule(inbound, k, p);
    MentionsIsPrefix(inbound, k, p, q);
  }

  lemma BecomesTwice(before: seq<Rule>, mid: seq<Rule>, after: seq<Rule>, keep: Rule -> bool, want: Rule -> bool,
                     keep': Rule -> bool, want': Rule -> bool, r: Rule)
    requires Becomes(before, mid, keep, want) && Becomes(mid, after, keep', want') && (want(r) ==> keep'(r))
    ensures r in after <==> want(r) || want'(r) || (r in before && keep(r) && keep'(r))
  {
  }

  lemma InboundSurvives(n: Next, keys: seq<JumpKey>, before: seq<Rule>, mid: seq<Rule>, after: seq<Rule>)
    requires ParentsApart(n.ins.parent, n.outs.parent) && forall k :: k in keys ==> ValidKey(k)
    requires Becomes(before, mid, Keeps(true, n.ins.parent, keys), Wants(true, n.ins.parent, keys))
    requires Becomes(mid, after, Keeps(false, n.outs.parent, keys), Wants(false, n.outs.parent, keys))
    ensures BothReconciled(n, keys, before, after)
  {
    var keepIn, wantIn := Keeps(true, n.ins.parent, keys), Wants(true, n.ins.parent, keys);
    var keepOut, wantOut := Keeps(false, n.outs.parent, keys), Wants(false, n.outs.parent, keys);
    forall r ensures r in after <==> wantIn(r) || wantOut(r) || (r in before && keepIn(r) && keepOut(r)) {
      if wantIn(r) {
        DesiredElsewhere(true, n.ins.parent, n.outs.parent, keys, r);
      }
      BecomesTwice(before, mid, after, keepIn, wantIn, keepOut, wantOut, r);
    }
  }

  predicate ValidRules(rules: seq<FwRule>) {
    forall r :: r in rules ==> ValidRule(r)
  }

  lemma RulesGrow(done: seq<FwRule>, rules: seq<FwRule>, j: nat)
    requires j < |rules|
    ensures done + rules[..j + 1] == (done + rules[..j]) + [rules[j]]
    ensures HasEgress(done + rules[..j + 1]) <==> HasEgress(done + rules[..j]) || DirectionOf(rules[j]) == Egress
    ensures ValidRules(rules[..j]) && ValidRule(rules[j]) ==> ValidRules(rules[..j + 1])
    ensures ValidRules(rules) ==> ValidRule(rules[j])
  {
    assert rules[..j + 1] == rules[..j] + [rules[j]];
  }

  /** The two spare children of one synchronisation. */
  datatype Next = Next(ins: Side, outs: Side, nextIn: string, nextOut: string) {
    function Fresh(inbound: bool): string {
      if inbound then nextIn else nextOut
    }

    function Stale(inbound: bool): string {
      if inbound then Other(ins, nextIn) else Other(outs, nextOut)
    }
  }

  ghost predicate Filling(ctx: Ctx, t: Table, n: Next) {
    && n.ins == ctx.ins && n.outs == ctx.outs
    && Spare(t, n.ins, n.nextIn) && Spare(t, n.outs, n.nextOut)
    && n.ins.parent in t && n.outs.parent in t
  }

  /** Both children hold the rules lowered so far. */
  ghost predicate Filled(t: Table, n: Next, rules: seq<FwRule>) {
    && n.nextIn in t && t[n.nextIn] == [ESTABLISHED] + Lower(rules, Ingress)
    && n.nextOut in t && t[n.nextOut] == [ESTABLISHED] + Lower(rules, Egress)
  }

  lemma LowerOne(rules: seq<FwRule>, r: FwRule, d: Direction)
    ensures [ESTABLISHED] + Lower(rules + [r], d) ==
            if DirectionOf(r) == d then [ESTABLISHED] + Lower(rules, d) + [Translate(r)]
                else [ESTABLISHED] + Lower(rules, d)
  {
    assert (rules + [r])[..|rules|] == rules;
  }

  predicate ParentsSame(ins: Side, outs: Side, t: Table, t': Table) {
    && (ins.parent in t <==> ins.parent in t') && (ins.parent in t ==> t[ins.parent] == t'[ins.parent])
    && (outs.parent in t <==> outs.parent in t') && (outs.parent in t ==> t[outs.parent] == t'[outs.parent])
  }

  predicate Spare(t: Table, s: Side, c: string) {
    IsChild(s, c) && c in t && !PointsTo(t, s, c)
  }

  lemma GrowSafe(ctx: Ctx, t: Table, inbound: bool, c: string, r: Rule)
    requires Safe(ctx, t) && IsChild(SideOf(ctx, inbound), c) && !PointsTo(t, SideOf(ctx, inbound), c)
    requires c in t && !r.target.Jump?
    ensures Safe(ctx, t[c := t[c] + [r]])
  {
    assert NoJumps(t[c]);
    SpareSafe(ctx, t, inbound, c, t[c] + [r]);
  }

  /** Creating a missing child does not put it in force. */
  lemma NewSpare(ctx: Ctx, t: Table, inbound: bool, c: string)
    requires Safe(ctx, t) && IsChild(SideOf(ctx, inbound), c) && !PointsTo(t, SideOf(ctx, inbound), c)
    ensures !PointsTo(t[c := []], SideOf(ctx, inbound), c)
  {
  }

  ghost predicate ForwardQuiet(ctx: Ctx, t: Table) {
    FORWARD in t && forall r :: r in t[FORWARD] ==> ctx.quietIn(r) && ctx.quietOut(r)
  }

  /** Nothing of this VM's firewall is left. */
  ghost predicate Gone(ctx: Ctx, t: Table) {
    && ctx.ins.parent !in t && ctx.ins.a !in t && ctx.ins.b !in t
    && ctx.outs.parent !in t && ctx.outs.a !in t && ctx.outs.b !in t
    && ForwardQuiet(ctx, t)
  }

  lemma AllQuiet(ctx: Ctx, rules: seq<Rule>, first: seq<Rule>, second: seq<Rule>)
    requires first == Filter(rules, ctx.quietOut) && second == Filter(first, ctx.quietIn)
    ensures forall r :: r in second ==> ctx.quietIn(r) && ctx.quietOut(r)
  {
    forall r | r in second ensures ctx.quietIn(r) && ctx.quietOut(r) {
      FilterMembers(first, ctx.quietIn, r);
      FilterMembers(rules, ctx.quietOut, r);
    }
  }

  lemma OrphanUnreferenced(ctx: Ctx, t: Table, inbound: bool, c: string)
    requires Safe(ctx, t) && IsChild(SideOf(ctx, inbound), c) && SideOf(ctx, inbound).parent !in t
    ensures !Referenced(t, c)
  {
    var s := SideOf(ctx, inbound);
    forall d | d in t ensures !Targets(t[d], c) {
      assert MayHold(s, d, t[d]);
    }
  }

  /** Whatever the table, deleting by the text of a rule that mentions the parent is safe. */
  lemma DeletionAt(ctx: Ctx, t: Table, inbound: bool, k: nat)
    requires Safe(ctx, t) && k < |t[FORWARD]| && !Quiet(ctx, inbound)(t[FORWARD][k])
    ensures var t' := t[FORWARD := t[FORWARD][..k] + t[FORWARD][k + 1..]];
            Safe(ctx, t') && Thinned(Quiet(ctx, inbound), t, t')
  {
    var rules := t[FORWARD];
    assert rules == rules[..k] + [rules[k]] + rules[k + 1..];
    DeletionSafe(ctx, t, inbound, rules[..k], rules[k], rules[k + 1..]);
  }

  lemma AnyLineDeleted(ctx: Ctx, t: Table, inbound: bool, x: Rule)
    requires Safe(ctx, t) && ReadsText(ctx) && !Quiet(ctx, inbound)(x)
    ensures var next := Apply(t, DeleteSpec(FORWARD, Print(x)));
            next.Some? ==> Safe(ctx, next.value) && Thinned(Quiet(ctx, inbound), t, next.value)
  {
    if Apply(t, DeleteSpec(FORWARD, Print(x))).Some? {
      var k := SpecSelects(t, Print(x));
      SamePrintQuiet(ctx, inbound, t[FORWARD][k], x);
      DeletionAt(ctx, t, inbound, k);
    }
  }

  lemma SpecSelects(t: Table, spec: seq<string>) returns (k: nat)
    requires FORWARD in t && Apply(t, DeleteSpec(FORWARD, spec)).Some?
    ensures k < |t[FORWARD]| && Print(t[FORWARD][k]) == spec
    ensures Apply(t, DeleteSpec(FORWARD, spec)) == Some(t[FORWARD := t[FORWARD][..k] + t[FORWARD][k + 1..]])
  {
    k := RemoveFirstSplits(t[FORWARD], Prints(spec));
  }

  lemma SamePrintQuiet(ctx: Ctx, inbound: bool, r: Rule, x: Rule)
    requires ReadsText(ctx) && Print(r) == Print(x)
    ensures Quiet(ctx, inbound)(r) == Quiet(ctx, inbound)(x)
  {
    assert LineTokens(FORWARD, r) == LineTokens(FORWARD, x);
  }

  lemma QuietIsUnreferenced(ctx: Ctx, t: Table, inbound: bool, rules: seq<Rule>)
    requires Safe(ctx, t) && t[FORWARD] == Filter(rules, Quiet(ctx, inbound))
    ensures !Referenced(t, SideOf(ctx, inbound).parent)
  {
    var s := SideOf(ctx, inbound);
    forall r | r in t[FORWARD] ensures r.target != Jump(s.parent) {
      FilterMembers(rules, Quiet(ctx, inbound), r);
    }
    forall d | d in t ensures !Targets(t[d], s.parent) {
      assert MayHold(s, d, t[d]);
    }
  }

  lemma DeleteCommandSafe(ctx: Ctx, t: Table, c: string)
    requires Safe(ctx, t) && !Foreign(ctx, c) && c != FORWARD
    ensures Apply(t, DeleteChain(c)).Some? ==> Safe(ctx, Apply(t, DeleteChain(c)).value)
  {
    if Apply(t, DeleteChain(c)).Some? {
      DeleteChainSafe(ctx, t, c);
    }
  }

  ghost predicate SameExcept(c: string, t: Table, t': Table) {
    forall d :: d != c ==> (d in t <==> d in t') && (d in t ==> t[d] == t'[d])
  }

  lemma EmptySafe(ctx: Ctx, t: Table, inbound: bool, c: string)
    requires Safe(ctx, t) && !Apart(SideOf(ctx, inbound), c)
    requires (IsChild(SideOf(ctx, inbound), c) && !PointsTo(t, SideOf(ctx, inbound), c))
             || (ctx.goalIn == [] && ctx.goalOut == [])
    ensures Safe(ctx, t[c := []])
  {
    if ctx.goalIn == [] && ctx.goalOut == [] {
      FlushSafe(ctx, t, inbound, c);
    } else {
      SpareSafe(ctx, t, inbound, c, []);
    }
  }

  lemma DesiredKept(inbound: bool, parent: string, keys: seq<JumpKey>, k: JumpKey)
    requires k in keys
    ensures Kept(inbound, parent, keys, LineTokens(FORWARD, JumpRule(inbound, k, parent)))
  {
    PrintJump(inbound, k, parent);
    assert RuleMatches(JumpLineOf(inbound, k, parent), JumpArgs(inbound, k, parent));
  }

  lemma Judge(inbound: bool, parent: string, keys: seq<JumpKey>) returns (keep: Rule -> bool)
    ensures Judges(keep, inbound, parent, keys)
  {
    keep := (r: Rule) => Kept(inbound, parent, keys, LineTokens(FORWARD, r));
  }

  ghost predicate KeptOnly(before: seq<Rule>, after: seq<Rule>, keep: Rule -> bool) {
    forall r :: r in after <==> r in before && keep(r)
  }

  lemma JudgedMembers(inbound: bool, parent: string, keys: seq<JumpKey>, keep: Rule -> bool, before: seq<Rule>,
                      after: seq<Rule>)
    requires Judges(keep, inbound, parent, keys) && after == Filter(before, keep)
    ensures KeptOnly(before, after, Keeps(inbound, parent, keys))
  {
    forall r ensures r in after <==> r in before && Keeps(inbound, parent, keys)(r) {
      FilterMembers(before, keep, r);
      assert keep(r) <==> Kept(inbound, parent, keys, LineTokens(FORWARD, r));
    }
  }

  lemma KeptIsReconciled(inbound: bool, parent: string, keys: seq<JumpKey>, quiet: Rule -> bool, t: Table, u: Table,
                         after: seq<Rule>)
    requires OnlyJumpsAdded(inbound, parent, keys, quiet, t, u) && Present(inbound, parent, keys, u[FORWARD])
    requires KeptOnly(u[FORWARD], after, Keeps(inbound, parent, keys))
    ensures Becomes(t[FORWARD], after, Keeps(inbound, parent, keys), Wants(inbound, parent, keys))
  {
    var before, mid := t[FORWARD], u[FORWARD];
    forall r
      ensures r in after <==> Wants(inbound, parent, keys)(r) || (r in before && Keeps(inbound, parent, keys)(r))
    {
      if Desired(inbound, parent, keys, r) {
        var k :| k in keys && r == JumpRule(inbound, k, parent);
        DesiredKept(inbound, parent, keys, k);
      }
    }
  }

  /** Adding the desired jumps and deleting the stale ones, put together. */
  lemma ForwardDone(inbound: bool, parent: string, keys: seq<JumpKey>, quiet: Rule -> bool, start: Table, mid: Table,
                    t: Table, ok: bool)
    requires OnlyJumpsAdded(inbound, parent, keys, quiet, start, mid) && Present(inbound, parent, keys, mid[FORWARD])
    requires Thinned(quiet, mid, t) && (ok ==> KeptOnly(mid[FORWARD], t[FORWARD], Keeps(inbound, parent, keys)))
    ensures FORWARD in start && t == start[FORWARD := t[FORWARD]]
            && Filter(t[FORWARD], quiet) == Filter(start[FORWARD], quiet)
    ensures ok ==> Becomes(start[FORWARD], t[FORWARD], Keeps(inbound, parent, keys), Wants(inbound, parent, keys))
  {
    if ok {
      KeptIsReconciled(inbound, parent, keys, quiet, start, mid, t[FORWARD]);
    }
  }

  /** `keep` tells which rules reconciliation keeps. */
  ghost predicate Judges(keep: Rule -> bool, inbound: bool, parent: string, keys: seq<JumpKey>) {
    forall r {:trigger LineTokens(FORWARD, r)} :: keep(r) <==> Kept(inbound, parent, keys, LineTokens(FORWARD, r))
  }

  /** The context's notion of a quiet rule is the printed-line filter. */
  ghost predicate ReadsText(ctx: Ctx) {
    Listens(ctx.quietIn, ctx.ins.parent) && Listens(ctx.quietOut, ctx.outs.parent)
  }

  /** Only FORWARD changed, only by deletions, and every quiet rule kept its place. */
  ghost predicate Thinned(quiet: Rule -> bool, t: Table, t': Table) {
    && FORWARD in t && FORWARD in t' && t' == t[FORWARD := t'[FORWARD]]
    && (forall r :: r in t'[FORWARD] ==> r in t[FORWARD])
    && Filter(t'[FORWARD], quiet) == Filter(t[FORWARD], quiet)
  }

  lemma ThinnedTwice(quiet: Rule -> bool, t: Table, u: Table, v: Table)
    requires Thinned(quiet, t, u) && (u == v || Thinned(quiet, u, v))
    ensures Thinned(quiet, t, v)
  {
  }

  lemma FilterStep(rules: seq<Rule>, i: nat, keep: Rule -> bool)
    requires i < |rules|
    ensures keep(rules[i]) ==> Filter(rules[..i], keep) + rules[i..] == Filter(rules[..i + 1], keep) + rules[i + 1..]
    ensures Filter(rules[..i], keep) + rules[i..] == Filter(rules[..i], keep) + [rules[i]] + rules[i + 1..]
    ensures !keep(rules[i]) ==> Filter(rules[..i], keep) == Filter(rules[..i + 1], keep)
  {
    assert rules[..i + 1][..i] == rules[..i];
    assert rules[i..] == [rules[i]] + rules[i + 1..];
  }

  /** Every rule that prints like `x` is rejected. */
  ghost predicate RejectsLine(keep: Rule -> bool, x: Rule) {
    !keep(x) && forall r {:trigger LineTokens(FORWARD, r)} :: LineTokens(FORWARD, r) == LineTokens(FORWARD, x) ==>
        !keep(r)
  }

  /** Some printed line of the parent is exactly the jump to `child`. */
  predicate Shown(parent: string, rules: seq<Rule>, child: string) {
    exists j :: 0 <= j < |rules| && Join(LineTokens(parent, rules[j])) == ChildLine(parent, child)
  }

  method ShowsLine(parent: string, rules: seq<Rule>, child: string) returns (shown: bool)
    ensures shown <==> Shown(parent, rules, child)
  {
    shown := false;
    for i := 0 to |rules|
      invariant shown <==> exists j :: 0 <= j < i && Join(LineTokens(parent, rules[j])) == ChildLine(parent, child)
    {
      if Join(LineTokens(parent, rules[i])) == ChildLine(parent, child) {
        shown := true;
      }
    }
  }

  /** The printed text tells which child is in force. */
  lemma ShownChild(t: Table, s: Side)
    ensures PointsTo(t, s, s.a) ==> Shown(s.parent, t[s.parent], s.a)
    ensures PointsTo(t, s, s.b) && s.a != s.b ==> !Shown(s.parent, t[s.parent], s.a)
  {
    ChildLinePrinted(s.parent, s.a);
    ChildLinePrinted(s.parent, s.b);
    if s.a != s.b {
      ChildLineInjective(s.parent, s.a, s.b);
    }
    if PointsTo(t, s, s.a) {
      assert Join(LineTokens(s.parent, t[s.parent][0])) == ChildLine(s.parent, s.a);
    }
  }

  /** The test applied to each listed line. */
  method IsStale(inbound: bool, parent: string, keys: seq<JumpKey>, r: Rule, ghost keep: Rule -> bool,
                 ghost quiet: Rule -> bool)
    returns (stale: bool)
    requires Judges(keep, inbound, parent, keys) && Listens(quiet, parent)
    ensures stale <==> !keep(r)
    ensures stale ==> !quiet(r) && RejectsLine(keep, r)
  {
    var line := LineTokens(FORWARD, r);
    stale := Mentions(line, parent) && !exists k :: k in keys && RuleMatches(line, JumpArgs(inbound, k, parent));
  }

  method IsMentioned(parent: string, r: Rule, ghost quiet: Rule -> bool) returns (mentioned: bool)
    requires Listens(quiet, parent)
    ensures mentioned <==> !quiet(r)
    ensures mentioned ==> RejectsLine(quiet, r)
  {
    mentioned := Mentions(LineTokens(FORWARD, r), parent);
  }

  lemma SpecDeleted(t: Table, kept: seq<Rule>, x: Rule, rest: seq<Rule>, spec: seq<string>)
    requires FORWARD in t && t[FORWARD] == kept + [x] + rest && Prints(spec)(x)
    requires forall j :: 0 <= j < |kept| ==> !Prints(spec)(kept[j])
    ensures Apply(t, DeleteSpec(FORWARD, spec)) == Some(t[FORWARD := kept + rest])
  {
    assert (kept + [x] + rest)[|kept|] == x;
    RemoveFirstHead(kept, x, rest, Prints(spec));
  }

  lemma DeletionSafe(ctx: Ctx, t: Table, inbound: bool, kept: seq<Rule>, x: Rule, rest: seq<Rule>)
    requires Safe(ctx, t) && t[FORWARD] == kept + [x] + rest && !Quiet(ctx, inbound)(x)
    ensures Safe(ctx, t[FORWARD := kept + rest])
    ensures Thinned(Quiet(ctx, inbound), t, t[FORWARD := kept + rest])
  {
    FilterSkips(kept, x, rest, Quiet(ctx, inbound));
    FilterSkips(kept, x, rest, Unrelated(ctx));
    ForwardSafe(ctx, t, kept + rest);
  }

  lemma LineDeleted(ctx: Ctx, t: Table, inbound: bool, rules: seq<Rule>, i: nat, keep: Rule -> bool)
    requires Safe(ctx, t) && i < |rules| && !Quiet(ctx, inbound)(rules[i]) && RejectsLine(keep, rules[i])
    requires t[FORWARD] == Filter(rules[..i], keep) + rules[i..]
    ensures var t' := t[FORWARD := Filter(rules[..i + 1], keep) + rules[i + 1..]];
            Apply(t, DeleteSpec(FORWARD, Print(rules[i]))) == Some(t') && Safe(ctx, t')
              && Thinned(Quiet(ctx, inbound), t, t')
  {
    var kept, x, rest, spec := Filter(rules[..i], keep), rules[i], rules[i + 1..], Print(rules[i]);
    FilterStep(rules, i, keep);
    forall j | 0 <= j < |kept| ensures !Prints(spec)(kept[j]) {
      var y := kept[j];
      FilterMembers(rules[..i], keep, y);
      assert Prints(spec)(y) ==> LineTokens(FORWARD, y) == LineTokens(FORWARD, x);
    }
    SpecDeleted(t, kept, x, rest, spec);
    DeletionSafe(ctx, t, inbound, kept, x, rest);
  }

  function WithJump(t: Table, inbound: bool, key: JumpKey, parent: string): Table
    requires FORWARD in t
  {
    t[FORWARD := [JumpRule(inbound, key, parent)] + t[FORWARD]]
  }

  predicate Present(inbound: bool, parent: string, keys: seq<JumpKey>, rules: seq<Rule>) {
    forall k :: k in keys ==> JumpRule(inbound, k, parent) in rules
  }

  /** Only FORWARD changed, only by desired jumps, and quiet rules kept their order. */
  ghost predicate OnlyJumpsAdded(inbound: bool, parent: string, keys: seq<JumpKey>, quiet: Rule -> bool, t: Table,
                                 t': Table) {
    && FORWARD in t && FORWARD in t' && t' == t[FORWARD := t'[FORWARD]]
    && (forall r :: r in t'[FORWARD] ==> r in t[FORWARD] || Desired(inbound, parent, keys, r))
    && (forall r :: r in t[FORWARD] ==> r in t'[FORWARD])
    && Filter(t'[FORWARD], quiet) == Filter(t[FORWARD], quiet)
  }

  lemma JumpAdded(inbound: bool, parent: string, keys: seq<JumpKey>, i: nat, quiet: Rule -> bool, t: Table, u: Table,
                  v: Table)
    requires i < |keys| && OnlyJumpsAdded(inbound, parent, keys, quiet, t, u)
    requires v == u || v == WithJump(u, inbound, keys[i], parent)
    requires !quiet(JumpRule(inbound, keys[i], parent))
    ensures OnlyJumpsAdded(inbound, parent, keys, quiet, t, v)
    ensures Present(inbound, parent, keys[..i], u[FORWARD]) && JumpRule(inbound, keys[i], parent) in v[FORWARD]
            ==> Present(inbound, parent, keys[..i + 1], v[FORWARD])
  {
    var r := JumpRule(inbound, keys[i], parent);
    FilterSkips([], r, u[FORWARD], quiet);
    assert [] + [r] + u[FORWARD] == [r] + u[FORWARD] && [] + u[FORWARD] == u[FORWARD];
    assert Desired(inbound, parent, keys, r) by { assert keys[i] in keys; }
  }

  lemma InsertJumpSafe(ctx: Ctx, t: Table, inbound: bool, key: JumpKey)
    requires Safe(ctx, t) && SideOf(ctx, inbound).parent in t
    ensures Safe(ctx, WithJump(t, inbound, key, SideOf(ctx, inbound).parent))
    ensures Loadable(t, JumpRule(inbound, key, SideOf(ctx, inbound).parent))
    ensures !Quiet(ctx, inbound)(JumpRule(inbound, key, SideOf(ctx, inbound).parent))
  {
    var r := JumpRule(inbound, key, SideOf(ctx, inbound).parent);
    FilterSkips([], r, t[FORWARD], Unrelated(ctx));
    assert [] + [r] + t[FORWARD] == [r] + t[FORWARD] && [] + t[FORWARD] == t[FORWARD];
    ForwardSafe(ctx, t, [r] + t[FORWARD]);
  }

  /** Checking for a jump changes nothing, and inserting it is safe. */
  lemma JumpCommands(ctx: Ctx, t: Table, inbound: bool, key: JumpKey)
    requires Safe(ctx, t) && SideOf(ctx, inbound).parent in t
    ensures var r := JumpRule(inbound, key, SideOf(ctx, inbound).parent);
            && Apply(t, Check(FORWARD, r)) == (if r in t[FORWARD] then Some(t) else None)
            && Apply(t, InsertFirst(FORWARD, r)) == Some(WithJump(t, inbound, key, SideOf(ctx, inbound).parent))
            && Safe(ctx, WithJump(t, inbound, key, SideOf(ctx, inbound).parent))
  {
    InsertJumpSafe(ctx, t, inbound, key);
  }

  lemma NoSecondRule(t: Table, c: string)
    requires c in t && |t[c]| == 1
    ensures Apply(t, DeleteSecond(c)) == None
  {
  }

  lemma SwapCommands(ctx: Ctx, t: Table, inbound: bool, c: string)
    requires Safe(ctx, t) && IsChild(SideOf(ctx, inbound), c) && c in t && t[c] == Goal(ctx, inbound)
    requires SideOf(ctx, inbound).parent in t
    ensures Safe(ctx, t[SideOf(ctx, inbound).parent := [JumpTo(c)]])
    ensures var p := SideOf(ctx, inbound).parent;
            var cmd := if t[p] != [] then ReplaceFirst(p, JumpTo(c)) else Append(p, JumpTo(c));
            Apply(t, cmd) == Some(t[p := [JumpTo(c)]])
  {
    SwapSafe(ctx, t, inbound, c);
    var p := SideOf(ctx, inbound).parent;
    assert t[p] != [] ==> [JumpTo(c)] + t[p][1..] == [JumpTo(c)];
    assert t[p] == [] ==> t[p] + [JumpTo(c)] == [JumpTo(c)];
  }

  function ChildLine(parent: string, child: string): string {
    "-A " + parent + " -j " + child
  }

  lemma ChildLinePrinted(parent: string, child: string)
    ensures Join(LineTokens(parent, JumpTo(child))) == ChildLine(parent, child)
  {
    assert LineTokens(parent, JumpTo(child)) == ["-A", parent, "-j", child];
    assert Join(["-j", child]) == "-j" + " " + child == "-j " + child;
    assert ["-A", parent, "-j", child][1..] == [parent, "-j", child];
    assert [parent, "-j", child][1..] == ["-j", child];
    assert Join([parent, "-j", child]) == parent + " " + ("-j " + child);
  }

  lemma ChildLineInjective(parent: string, a: string, b: string)
    requires a != b
    ensures ChildLine(parent, a) != ChildLine(parent, b)
  {
    var n := |"-A " + parent + " -j "|;
    assert ChildLine(parent, a)[n..] == a && ChildLine(parent, b)[n..] == b;
  }
}
