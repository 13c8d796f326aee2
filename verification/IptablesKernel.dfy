/**
 * The kernel's filter table as the node agent drives it: chains of rules, the
 * iptables commands used by qarax-node, what they print, and how a packet
 * walks a chain.
 */
module IptablesKernel {
  import opened Common

  datatype Proto = AnyProto | Tcp | Udp | Icmp

  datatype Target = Accept | Drop | Return | Jump(chain: string)

  /** `extra` holds the printed tokens of any match the agent itself never uses. */
  datatype Rule = Rule(
    src: Option<string>, dst: Option<string>, inIf: Option<string>, outIf: Option<string>,
    proto: Proto, dport: Option<(int, int)>, tracked: bool, extra: seq<string>, target: Target)

  const ANY := Rule(None, None, None, None, AnyProto, None, false, [], Accept)

  type Table = map<string, seq<Rule>>

  const FORWARD := "FORWARD"

  /* ---- packets ---- */

  datatype Packet = Packet(src: nat, dst: nat, inIf: string, outIf: string,
                           proto: Proto, dport: int, established: bool)

  /** How the kernel reads address texts and foreign matches; left abstract. */
  datatype Env = Env(net: (string, nat) -> bool, ext: (seq<string>, Packet) -> bool)

  predicate Matches(env: Env, r: Rule, p: Packet) {
    && (r.src.Some? ==> env.net(r.src.value, p.src))
    && (r.dst.Some? ==> env.net(r.dst.value, p.dst))
    && (r.inIf.Some? ==> p.inIf == r.inIf.value)
    && (r.outIf.Some? ==> p.outIf == r.outIf.value)
    && (r.proto != AnyProto ==> p.proto == r.proto)
    && (r.dport.Some? ==> r.dport.value.0 <= p.dport <= r.dport.value.1)
    && (r.tracked ==> p.established)
    && (r.extra != [] ==> env.ext(r.extra, p))
  }

  datatype Verdict = Accepted | Dropped | FellThrough

  /** First match wins; a jump that falls through resumes after the jump. */
  function Walk(env: Env, t: Table, rules: seq<Rule>, p: Packet, fuel: nat): Verdict
    decreases fuel, |rules|
  {
    if rules == [] then FellThrough
    else if !Matches(env, rules[0], p) then Walk(env, t, rules[1..], p, fuel)
    else match rules[0].target
      case Accept => Accepted
      case Drop => Dropped
      case Return => FellThrough
      case Jump(c) =>
        var v := if fuel == 0 || c !in t then FellThrough else Walk(env, t, t[c], p, fuel - 1);
        if v == FellThrough then Walk(env, t, rules[1..], p, fuel) else v
  }

  predicate NoJumps(rules: seq<Rule>) {
    forall r :: r in rules ==> !r.target.Jump?
  }

  /** A jump-free rule list decides alone: no other chain can change its verdict. */
  lemma {:induction false} WalkIsLocal(env: Env, t: Table, u: Table, rules: seq<Rule>, p: Packet, f: nat, g: nat)
    requires NoJumps(rules)
    ensures Walk(env, t, rules, p, f) == Walk(env, u, rules, p, g)
    decreases |rules|
  {
    if rules != [] {
      assert rules[0] in rules;
      WalkIsLocal(env, t, u, rules[1..], p, f, g);
    }
  }

  /* ---- commands ---- */

  datatype Command =
    | NewChain(c: string)
    | Flush(c: string)
    | DeleteChain(c: string)
    | Append(c: string, r: Rule)
    | InsertFirst(c: string, r: Rule)
    | ReplaceFirst(c: string, r: Rule)
    | DeleteSecond(c: string)
    | Check(c: string, r: Rule)
    | DeleteSpec(c: string, spec: seq<string>)

  predicate Referenced(t: Table, c: string) {
    exists d :: d in t && Targets(t[d], c)
  }

  predicate Targets(rules: seq<Rule>, c: string) {
    exists r :: r in rules && r.target == Jump(c)
  }

  /** iptables refuses reversed or out-of-range port ranges and jumps to missing chains. */
  predicate Loadable(t: Table, r: Rule) {
    && (r.dport.Some? ==> 0 <= r.dport.value.0 <= r.dport.value.1 <= 65535)
    && (r.target.Jump? ==> r.target.chain in t)
  }

  /** The table after a successful command, or None when the kernel refuses it. */
  function Apply(t: Table, cmd: Command): Option<Table> {
    match cmd
    case NewChain(c) => if c in t then None else Some(t[c := []])
    case Flush(c) => if c in t then Some(t[c := []]) else None
    case DeleteChain(c) =>
      if c in t && c != FORWARD && t[c] == [] && !Referenced(t, c) then Some(t - {c}) else None
    case Append(c, r) => if c in t && Loadable(t, r) then Some(t[c := t[c] + [r]]) else None
    case InsertFirst(c, r) => if c in t && Loadable(t, r) then Some(t[c := [r] + t[c]]) else None
    case ReplaceFirst(c, r) =>
      if c in t && t[c] != [] && Loadable(t, r) then Some(t[c := [r] + t[c][1..]]) else None
    case DeleteSecond(c) =>
      if c in t && |t[c]| >= 2 then Some(t[c := [t[c][0]] + t[c][2..]]) else None
    case Check(c, r) => if c in t && r in t[c] then Some(t) else None
    case DeleteSpec(c, spec) =>
      if c in t && AnyIn(t[c], Prints(spec)) then Some(t[c := RemoveFirst(t[c], Prints(spec))]) else None
  }

  /** `-D` with a specification selects the rules that print as that specification. */
  function Prints(spec: seq<string>): Rule -> bool {
    (r: Rule) => Print(r) == spec
  }

  /* ---- the text printed by -S ---- */

  function Digit(n: nat): char
    requires n < 10
  {
    "0123456789"[n]
  }

  function Decimal(n: int): string
    decreases if n < 0 then 1 - n else n
  {
    if n < 0 then "-" + Decimal(-n)
    else if n < 10 then [Digit(n)]
    else Decimal(n / 10) + [Digit(n % 10)]
  }

  function Flag(flag: string, value: Option<string>): seq<string> {
    match value
    case None => []
    case Some(v) => [flag, v]
  }

  function ProtoText(p: Proto): seq<string> {
    match p
    case AnyProto => []
    case Tcp => ["-p", "tcp"]
    case Udp => ["-p", "udp"]
    case Icmp => ["-p", "icmp"]
  }

  function TargetText(t: Target): string {
    match t
    case Accept => "ACCEPT"
    case Drop => "DROP"
    case Return => "RETURN"
    case Jump(c) => c
  }

  /** The rule specification in the canonical order in which iptables prints it. */
  function Print(r: Rule): seq<string> {
    Flag("-s", r.src) + Flag("-d", r.dst) + Flag("-i", r.inIf) + Flag("-o", r.outIf)
    + ProtoText(r.proto)
    + (if r.tracked then ["-m", "conntrack", "--ctstate", "RELATED,ESTABLISHED"] else [])
    + (match r.dport
       case None => []
       case Some(ports) =>
         ["--dport", if ports.0 == ports.1 then Decimal(ports.0) else Decimal(ports.0) + ":" + Decimal(ports.1)])
    + r.extra + ["-j", TargetText(r.target)]
  }

  /** The tokens of the line `-S` prints for a rule of chain `c`. */
  function LineTokens(c: string, r: Rule): seq<string> {
    ["-A", c] + Print(r)
  }

  function Join(tokens: seq<string>): string {
    if tokens == [] then ""
    else if |tokens| == 1 then tokens[0]
    else tokens[0] + " " + Join(tokens[1..])
  }
}
