/**
 * Cluster-wide network policy computed from one snapshot of network
 * attachments: VXLAN overlays between the hosts of a VPC, and the subnets a
 * network must not reach (qarax/src/network_policy.rs).
 */
module NetworkPolicy {
  import opened Common

  /** Host identifiers compare as 128-bit numbers. */
  type Host = nat

  datatype Network = Network(id: nat, subnet: string, vpc: Option<string>, isolated: bool)

  datatype Attachment = Attachment(host: Host, address: string, network: Network, bridge: string)

  /** The version-5 UUID derived from a VPC name, as bytes. */
  type Seed = s: seq<Byte> | |s| == 16 witness [0, 0, 0, 0, 0, 0, 0, 0, 0, 0, 0, 0, 0, 0, 0, 0]

  type Byte = n: nat | n < 256

  datatype Ipv4 = Ipv4(a: nat, b: nat, c: nat, d: nat)

  datatype Overlay = Overlay(iface: string, vni: nat, underlay: string, local: Ipv4,
                             peers: set<string>, routes: set<(string, Ipv4)>)

  datatype Result<+T> = Ok(value: T) | Err

  /* ---- naming ---- */

  function HexDigit(n: nat): char
    requires n < 16
  {
    "0123456789abcdef"[n]
  }

  function Hex(bytes: seq<Byte>): string {
    if bytes == [] then "" else [HexDigit(bytes[0] / 16), HexDigit(bytes[0] % 16)] + Hex(bytes[1..])
  }

  function InterfaceName(seed: Seed): string {
    "qvx" + Hex(seed[..4])
  }

  function Vni(seed: Seed): nat {
    var vni: nat := 65536 * (seed[0] as nat) + 256 * (seed[1] as nat) + seed[2];
    if vni == 0 then 1 else vni
  }

  function Address(seed: Seed, index: nat): Ipv4 {
    Ipv4(100, 64 + seed[3] % 64, seed[4], index + 1)
  }

  function OverlayIp(seed: Seed, index: nat): Result<Ipv4> {
    if index >= 254 then Err else Ok(Address(seed, index))
  }

  /** A non-zero 24-bit network identifier, and an address in 100.64.0.0/10 that is neither network nor broadcast. */
  lemma NamingInRange(seed: Seed, index: nat)
    ensures 1 <= Vni(seed) < 0x100_0000
    ensures OverlayIp(seed, index).Ok? <==> index < 254
    ensures OverlayIp(seed, index).Ok? ==>
              var ip := OverlayIp(seed, index).value;
              ip.a == 100 && 64 <= ip.b < 128 && ip.c < 256 && 1 <= ip.d <= 254
  {
  }

  lemma BaseDigits(a: nat, b: nat, c: nat)
    requires b < 256 && c < 256
    ensures var n := 65536 * a + 256 * b + c;
            n / 65536 == a && n / 256 % 256 == b && n % 256 == c
  {
    assert 65536 * a + 256 * b + c == 256 * (256 * a + b) + c;
    assert (256 * (256 * a + b) + c) / 256 == 256 * a + b;
  }

  /** The first three bytes of a seed are the base-256 digits of its network identifier, unless all are zero. */
  lemma VniDigits(seed: Seed)
    ensures var vni: nat := Vni(seed);
            if seed[0] == 0 && seed[1] == 0 && seed[2] == 0 then vni == 1
            else vni / 65536 == seed[0] && vni / 256 % 256 == seed[1] && vni % 256 == seed[2]
  {
    BaseDigits(seed[0] as nat, seed[1] as nat, seed[2] as nat);
  }

  /** Two VPCs share a segment exactly when those bytes agree, or are [0, 0, 0] and [0, 0, 1]. */
  lemma VniSharedIff(s: Seed, t: Seed)
    ensures Vni(s) == Vni(t) <==>
            || s[..3] == t[..3]
            || (s[..3] == [0, 0, 0] && t[..3] == [0, 0, 1]) || (s[..3] == [0, 0, 1] && t[..3] == [0, 0, 0])
  {
    VniDigits(s);
    VniDigits(t);
    assert s[..3] == [s[0], s[1], s[2]] && t[..3] == [t[0], t[1], t[2]];
  }

  function HexValue(c: char): int {
    if '0' <= c <= '9' then c as int - '0' as int else c as int - 'a' as int + 10
  }

  lemma HexDigitValue(n: nat)
    requires n < 16
    ensures HexValue(HexDigit(n)) == n
  {
  }

  lemma {:induction false} HexDigits(bytes: seq<Byte>, i: nat)
    requires i < |bytes|
    ensures |Hex(bytes)| == 2 * |bytes|
    ensures HexValue(Hex(bytes)[2 * i]) == bytes[i] / 16 && HexValue(Hex(bytes)[2 * i + 1]) == bytes[i] % 16
  {
    HexDigitValue(bytes[0] / 16);
    HexDigitValue(bytes[0] % 16);
    if i > 0 {
      HexDigits(bytes[1..], i - 1);
      assert Hex(bytes)[2 * i] == Hex(bytes[1..])[2 * (i - 1)];
      assert Hex(bytes)[2 * i + 1] == Hex(bytes[1..])[2 * (i - 1) + 1];
    } else if |bytes| > 1 {
      HexDigits(bytes[1..], 0);
    }
  }

  /** A device name is `qvx` and the first four bytes of the seed in hexadecimal. */
  lemma NameDigits(seed: Seed, i: nat)
    requires i < 4
    ensures var name := InterfaceName(seed);
            && |name| == 11 && name[..3] == "qvx"
            && 16 * HexValue(name[3 + 2 * i]) + HexValue(name[4 + 2 * i]) == seed[i]
  {
    HexDigits(seed[..4], i);
    assert InterfaceName(seed)[3..] == Hex(seed[..4]);
  }

  /** Two VPCs share a device name exactly when the first four bytes of their seeds agree. */
  lemma NameSharedIff(s: Seed, t: Seed)
    ensures InterfaceName(s) == InterfaceName(t) <==> s[..4] == t[..4]
  {
    if InterfaceName(s) == InterfaceName(t) {
      forall i | 0 <= i < 4 ensures s[..4][i] == t[..4][i] {
        NameDigits(s, i);
        NameDigits(t, i);
      }
    }
  }

  /* ---- who takes part in a VPC ---- */

  predicate InVpc(a: Attachment, vpc: string) {
    a.network.vpc == Some(vpc)
  }

  function HostsOf(attached: seq<Attachment>, vpc: string): set<Host> {
    set a | a in attached && InVpc(a, vpc) :: a.host
  }

  function AttachedTo(vpc: string, host: Host): Attachment -> bool {
    (a: Attachment) => InVpc(a, vpc) && a.host == host
  }

  /** vpc_participants: the attachments of each participating host, in snapshot order. */
  method Participants(attached: seq<Attachment>, vpc: string) returns (m: map<Host, seq<Attachment>>)
    ensures m.Keys == HostsOf(attached, vpc)
    ensures forall h :: h in m ==> m[h] == Filter(attached, AttachedTo(vpc, h)) && m[h] != []
  {
    m := map[];
    for i := 0 to |attached|
      invariant m.Keys == HostsOf(attached[..i], vpc)
      invariant forall h :: h in m ==> m[h] == Filter(attached[..i], AttachedTo(vpc, h)) && m[h] != []
    {
      var a := attached[i];
      ParticipantsGrow(attached, vpc, i);
      if InVpc(a, vpc) {
        m := m[a.host := (if a.host in m then m[a.host] else []) + [a]];
      }
    }
    assert attached[..|attached|] == attached;
  }

  lemma ParticipantsGrow(attached: seq<Attachment>, vpc: string, i: nat)
    requires i < |attached|
    ensures HostsOf(attached[..i + 1], vpc) ==
            HostsOf(attached[..i], vpc) + (if InVpc(attached[i], vpc) then {attached[i].host} else {})
    ensures forall h :: Filter(attached[..i + 1], AttachedTo(vpc, h)) ==
                        Filter(attached[..i], AttachedTo(vpc, h))
                        + (if AttachedTo(vpc, h)(attached[i]) then [attached[i]] else [])
    ensures forall h :: h !in HostsOf(attached[..i], vpc) ==> Filter(attached[..i], AttachedTo(vpc, h)) == []
  {
    assert attached[..i + 1] == attached[..i] + [attached[i]];
    assert attached[..i + 1][..i] == attached[..i];
    forall h | h !in HostsOf(attached[..i], vpc) ensures Filter(attached[..i], AttachedTo(vpc, h)) == [] {
      NothingKept(attached[..i], AttachedTo(vpc, h));
    }
  }

  lemma NothingKept<T>(s: seq<T>, keep: T -> bool)
    requires forall x :: x in s ==> !keep(x)
    ensures Filter(s, keep) == []
  {
    if Filter(s, keep) != [] {
      FilterMembers(s, keep, Filter(s, keep)[0]);
    }
  }

  /* ---- order ---- */

  /** How many hosts of the set sort before `h`. */
  function Rank(hosts: set<Host>, h: Host): nat {
    |Below(hosts, h)|
  }

  function Below(hosts: set<Host>, h: Host): set<Host> {
    set x | x in hosts && x < h
  }

  predicate Ascending(s: seq<Host>) {
    forall i, j :: 0 <= i < j < |s| ==> s[i] < s[j]
  }

  /** sorted_host_ids. */
  method SortedHosts(hosts: set<Host>) returns (order: seq<Host>)
    ensures Ascending(order) && |order| == |hosts| && forall h :: h in order <==> h in hosts
  {
    order := [];
    var left := hosts;
    while left != {}
      invariant Split(hosts, order, left) && |order| + |left| == |hosts|
      decreases |left|
    {
      LeastHost(left);
      var h :| IsLeast(left, h);
      SplitStep(hosts, order, left, h);
      order, left := order + [h], left - {h};
    }
  }

  /** Selection sort so far: the hosts taken, in order, all before those left. */
  ghost predicate Split(hosts: set<Host>, order: seq<Host>, left: set<Host>) {
    && Ascending(order) && left <= hosts
    && (forall h :: h in order <==> h in hosts && h !in left)
    && forall g, h :: g in order && h in left ==> g < h
  }

  lemma SplitStep(hosts: set<Host>, order: seq<Host>, left: set<Host>, h: Host)
    requires Split(hosts, order, left) && IsLeast(left, h)
    ensures Split(hosts, order + [h], left - {h})
  {
    AscendingAppend(order, h);
  }

  predicate IsLeast(hosts: set<Host>, h: Host) {
    h in hosts && forall g :: g in hosts ==> h <= g
  }

  lemma LeastHost(hosts: set<Host>)
    requires hosts != {}
    ensures exists h :: IsLeast(hosts, h)
  {
    var key := (h: Host) => h as int;
    var h := Least(hosts, key);
    assert forall g :: g in hosts ==> key(h) <= key(g);
    assert IsLeast(hosts, h);
  }

  lemma AscendingAppend(s: seq<Host>, h: Host)
    requires Ascending(s) && forall g :: g in s ==> g < h
    ensures Ascending(s + [h])
  {
    forall i, j | 0 <= i < j < |s + [h]| ensures (s + [h])[i] < (s + [h])[j] {
      assert (s + [h])[i] in s;
    }
  }

  lemma {:induction false} AscendingSize(s: seq<Host>)
    requires Ascending(s)
    ensures |Elements(s)| == |s|
  {
    if s != [] {
      var front, last := s[..|s| - 1], s[|s| - 1];
      AscendingSize(front);
      assert s == front + [last];
      assert Elements(s) == Elements(front) + {last};
    }
  }

  /** A host's position in the sorted list is its rank, so every host computes the same one. */
  lemma PositionIsRank(order: seq<Host>, hosts: set<Host>, i: nat)
    requires Ascending(order) && i < |order| && forall h :: h in order <==> h in hosts
    ensures i == Rank(hosts, order[i])
  {
    AscendingSize(order[..i]);
    forall x ensures x in Below(hosts, order[i]) <==> x in Elements(order[..i]) {
      if x in hosts && x < order[i] {
        var j :| 0 <= j < |order| && order[j] == x;
        assert order[..i][j] == x;
      }
    }
    assert Below(hosts, order[i]) == Elements(order[..i]);
  }

  lemma RankOrders(hosts: set<Host>, g: Host, h: Host)
    requires g in hosts && h in hosts && g < h
    ensures Rank(hosts, g) < Rank(hosts, h) < |hosts|
  {
    SubsetSize(Below(hosts, g), Below(hosts, h) - {g});
    SubsetSize(Below(hosts, h), hosts - {h});
  }

  lemma RankInjective(hosts: set<Host>, g: Host, h: Host)
    requires g in hosts && h in hosts
    ensures Rank(hosts, g) == Rank(hosts, h) <==> g == h
  {
    if g < h {
      RankOrders(hosts, g, h);
    } else if h < g {
      RankOrders(hosts, h, g);
    }
  }

  method Position(order: seq<Host>, h: Host, ghost hosts: set<Host>) returns (i: Option<nat>)
    requires Sorted(order, hosts)
    ensures i == if h in hosts then Some(Rank(hosts, h)) else None
  {
    i := None;
    for k := 0 to |order|
      invariant h !in order[..k]
    {
      if order[k] == h {
        PositionIsRank(order, hosts, k);
        return Some(k);
      }
    }
    assert order[..|order|] == order;
  }

  /* ---- one host's overlay for one VPC ---- */

  /** Underlay resolution as a function of the address; None is a failed lookup. */
  type Resolver = string -> Option<string>

  function Underlay(resolve: Resolver, address: string): string {
    match resolve(address)
    case None => ""
    case Some(ip) => ip
  }

  function FirstAddress(attached: seq<Attachment>, vpc: string, h: Host): string {
    var mine := Filter(attached, AttachedTo(vpc, h));
    if mine == [] then "" else mine[0].address
  }

  /** The flood list: one underlay address for each of `others`. */
  function Peers(attached: seq<Attachment>, vpc: string, resolve: Resolver, others: set<Host>): set<string> {
    set h | h in others :: Underlay(resolve, FirstAddress(attached, vpc, h))
  }

  /** Each subnet on one of `others`, through the address its host takes by rank among `hosts`. */
  function Routes(attached: seq<Attachment>, vpc: string, seed: Seed, hosts: set<Host>, others: set<Host>)
    : set<(string, Ipv4)>
  {
    set a | a in attached && InVpc(a, vpc) && a.host in others :: (a.network.subnet, Address(seed, Rank(hosts, a.host)))
  }

  /** What one host must configure for a VPC, said from the snapshot alone. */
  ghost predicate IsOverlay(attached: seq<Attachment>, vpc: string, seed: Seed, resolve: Resolver,
                            host: Host, address: string, o: Overlay) {
    var hosts := HostsOf(attached, vpc);
    && host in hosts && 2 <= |hosts| <= 254
    && o == Overlay(InterfaceName(seed), Vni(seed), Underlay(resolve, address), Address(seed, Rank(hosts, host)),
                    Peers(attached, vpc, resolve, hosts - {host}), Routes(attached, vpc, seed, hosts, hosts - {host}))
  }

  ghost predicate Resolved(attached: seq<Attachment>, vpc: string, resolve: Resolver, others: set<Host>) {
    forall h :: h in others ==> resolve(FirstAddress(attached, vpc, h)).Some?
  }

  method AddRoutes(before: set<(string, Ipv4)>, remote: seq<Attachment>, hop: Ipv4)
      returns (routes: set<(string, Ipv4)>)
    ensures routes == before + set a | a in remote :: (a.network.subnet, hop)
  {
    routes := before;
    for i := 0 to |remote|
      invariant routes == before + set a | a in remote[..i] :: (a.network.subnet, hop)
    {
      assert remote[..i + 1] == remote[..i] + [remote[i]];
      routes := routes + {(remote[i].network.subnet, hop)};
    }
    assert remote[..|remote|] == remote;
  }

  lemma RoutesGrow(attached: seq<Attachment>, vpc: string, seed: Seed, hosts: set<Host>, others: set<Host>, h: Host)
    ensures Routes(attached, vpc, seed, hosts, others + {h}) == Routes(attached, vpc, seed, hosts, others)
            + set a | a in Filter(attached, AttachedTo(vpc, h)) :: (a.network.subnet, Address(seed, Rank(hosts, h)))
  {
    forall a ensures a in Filter(attached, AttachedTo(vpc, h)) <==> a in attached && InVpc(a, vpc) && a.host == h {
      FilterMembers(attached, AttachedTo(vpc, h), a);
    }
  }

  lemma RankBound(hosts: set<Host>, h: Host)
    requires h in hosts
    ensures Rank(hosts, h) < |hosts|
  {
    SubsetSize(Below(hosts, h), hosts - {h});
  }

  ghost predicate Sorted(order: seq<Host>, hosts: set<Host>) {
    Ascending(order) && forall h :: h in order <==> h in hosts
  }

  ghost predicate Grouped(attached: seq<Attachment>, vpc: string, m: map<Host, seq<Attachment>>) {
    m.Keys == HostsOf(attached, vpc) && forall h :: h in m ==>
        m[h] == Filter(attached, AttachedTo(vpc, h)) && m[h] != []
  }

  /** One remote participant's contribution to the flood list and the routes; Err when its address does not resolve. */
  method Neighbour(attached: seq<Attachment>, vpc: string, seed: Seed, resolve: Resolver, order: seq<Host>,
                   ghost hosts: set<Host>,
                   remote: Host, theirs: seq<Attachment>, ghost done: set<Host>, p: set<string>, q: set<(string, Ipv4)>)
    returns (r: Result<(set<string>, set<(string, Ipv4)>)>)
    requires Sorted(order, hosts) && remote in hosts && |hosts| <= 254
    requires theirs == Filter(attached, AttachedTo(vpc, remote)) && theirs != []
    requires p == Peers(attached, vpc, resolve, done) && q == Routes(attached, vpc, seed, hosts, done)
    ensures r.Ok? <==> resolve(FirstAddress(attached, vpc, remote)).Some?
    ensures r.Ok? ==> r.value.0 == Peers(attached, vpc, resolve, done + {remote})
    ensures r.Ok? ==> r.value.1 == Routes(attached, vpc, seed, hosts, done + {remote})
  {
    var underlay := resolve(theirs[0].address);
    if underlay == None {
      return Err;
    }
    var index := Position(order, remote, hosts);
    RankBound(hosts, remote);
    var hop := OverlayIp(seed, index.value);
    var routes := AddRoutes(q, theirs, hop.value);
    RoutesGrow(attached, vpc, seed, hosts, done, remote);
    PeersGrow(attached, vpc, resolve, done, remote);
    r := Ok((p + {underlay.value}, routes));
  }

  lemma PeersGrow(attached: seq<Attachment>, vpc: string, resolve: Resolver, others: set<Host>, h: Host)
    ensures Peers(attached, vpc, resolve, others + {h}) ==
            Peers(attached, vpc, resolve, others) + {Underlay(resolve, FirstAddress(attached, vpc, h))}
  {
  }

  /** The participants handled after `k` steps of the walk over `order`. */
  function Walked(order: seq<Host>, k: nat, host: Host): set<Host>
    requires k <= |order|
  {
    Elements(order[..k]) - {host}
  }

  lemma WalkedStep(order: seq<Host>, k: nat, host: Host)
    requires k < |order|
    ensures order[k] != host ==> Walked(order, k + 1, host) == Walked(order, k, host) + {order[k]}
    ensures order[k] == host ==> Walked(order, k + 1, host) == Walked(order, k, host)
  {
    assert order[..k + 1] == order[..k] + [order[k]];
  }

  lemma WalkedAll(order: seq<Host>, hosts: set<Host>, host: Host)
    requires Sorted(order, hosts)
    ensures Walked(order, |order|, host) == hosts - {host}
    ensures forall k :: 0 <= k < |order| && order[k] != host ==> order[k] in hosts - {host}
  {
    assert order[..|order|] == order;
  }

  method Neighbours(attached: seq<Attachment>, vpc: string, seed: Seed, resolve: Resolver, order: seq<Host>,
                    m: map<Host, seq<Attachment>>, host: Host)
    returns (r: Result<(set<string>, set<(string, Ipv4)>)>)
    requires Grouped(attached, vpc, m) && Sorted(order, m.Keys) && |m.Keys| <= 254
    ensures r.Ok? <==> Resolved(attached, vpc, resolve, m.Keys - {host})
    ensures r.Ok? ==> r.value.0 == Peers(attached, vpc, resolve, m.Keys - {host})
    ensures r.Ok? ==> r.value.1 == Routes(attached, vpc, seed, m.Keys, m.Keys - {host})
  {
    r := Ok(({}, {}));
    WalkedAll(order, m.Keys, host);
    for k := 0 to |order|
      invariant Resolved(attached, vpc, resolve, Walked(order, k, host))
      invariant r.Ok? && r.value.0 == Peers(attached, vpc, resolve, Walked(order, k, host))
      invariant r.value.1 == Routes(attached, vpc, seed, m.Keys, Walked(order, k, host))
    {
      WalkedStep(order, k, host);
      if order[k] != host {
        r := Neighbour(attached, vpc, seed, resolve, order, m.Keys, order[k], m[order[k]], Walked(order, k, host),
                       r.value.0, r.value.1);
        if r.Err? {
          return;
        }
      }
    }
  }

  /** The loop body of sync_host_vpc_overlays_for_host, for a VPC with several participants. */
  method OverlayFor(attached: seq<Attachment>, vpc: string, seed: Seed, resolve: Resolver, host: Host, address: string,
                    m: map<Host, seq<Attachment>>)
    returns (r: Result<Overlay>)
    requires Grouped(attached, vpc, m) && 2 <= |m.Keys|
    ensures r.Ok? ==> IsOverlay(attached, vpc, seed, resolve, host, address, r.value)
    ensures r.Ok? <==> Computable(attached, vpc, resolve, host, address)
  {
    var order := SortedHosts(m.Keys);
    if |order| >= 255 {
      return Err;
    }
    var mine := Position(order, host, m.Keys);
    if mine == None || resolve(address) == None {
      return Err;
    }
    RankBound(m.Keys, host);
    var local := OverlayIp(seed, mine.value);
    var n := Neighbours(attached, vpc, seed, resolve, order, m, host);
    if n.Err? {
      return Err;
    }
    r := Ok(Overlay(InterfaceName(seed), Vni(seed), resolve(address).value, local.value, n.value.0, n.value.1));
  }

  ghost predicate Computable(attached: seq<Attachment>, vpc: string, resolve: Resolver, host: Host, address: string) {
    var hosts := HostsOf(attached, vpc);
    && host in hosts && |hosts| <= 254
    && resolve(address).Some? && Resolved(attached, vpc, resolve, hosts - {host})
  }

  /* ---- all overlays of one host ---- */

  function VpcsOf(attached: seq<Attachment>, host: Host): set<string> {
    set a | a in attached && a.host == host && a.network.vpc.Some? :: a.network.vpc.value
  }

  /** A VPC the host takes part in with at least one other host. */
  predicate Spans(attached: seq<Attachment>, vpc: string) {
    |HostsOf(attached, vpc)| >= 2
  }

  method LocalVpcs(attached: seq<Attachment>, host: Host) returns (vpcs: set<string>)
    ensures vpcs == VpcsOf(attached, host)
  {
    vpcs := {};
    for i := 0 to |attached|
      invariant vpcs == VpcsOf(attached[..i], host)
    {
      assert attached[..i + 1] == attached[..i] + [attached[i]];
      if attached[i].host == host && attached[i].network.vpc.Some? {
        vpcs := vpcs + {attached[i].network.vpc.value};
      }
    }
    assert attached[..|attached|] == attached;
  }

  method OverlayIfSpanning(attached: seq<Attachment>, vpc: string, seed: Seed, resolve: Resolver, host: Host,
                           address: string)
    returns (r: Result<Option<Overlay>>)
    ensures r.Ok? <==> (Spans(attached, vpc) ==> Computable(attached, vpc, resolve, host, address))
    ensures r.Ok? ==> (r.value.Some? <==> Spans(attached, vpc))
    ensures r.Ok? && r.value.Some? ==> IsOverlay(attached, vpc, seed, resolve, host, address, r.value.value)
  {
    var m := Participants(attached, vpc);
    if |m.Keys| <= 1 {
      return Ok(None);
    }
    var o := OverlayFor(attached, vpc, seed, resolve, host, address, m);
    r := if o.Err? then Err else Ok(Some(o.value));
  }

  /**
   * sync_host_vpc_overlays_for_host up to the call to the node: every spanning
   * VPC of the host is computable, and then each has its overlay; or nothing is sent.
   */
  method Overlays(attached: seq<Attachment>, seed: string -> Seed, resolve: Resolver, host: Host, address: string)
    returns (r: Result<map<string, Overlay>>)
    ensures r.Ok? <==> forall vpc :: vpc in VpcsOf(attached, host) && Spans(attached, vpc) ==>
                                       Computable(attached, vpc, resolve, host, address)
    ensures r.Ok? ==> r.value.Keys == set vpc | vpc in VpcsOf(attached, host) && Spans(attached, vpc)
    ensures r.Ok? ==> forall vpc :: vpc in r.value <==>
              TakesPart(attached, vpc, host) && exists h :: h != host && TakesPart(attached, vpc, h)
    ensures r.Ok? ==> forall vpc :: vpc in r.value ==>
                                       IsOverlay(attached, vpc, seed(vpc), resolve, host, address, r.value[vpc])
  {
    var left := LocalVpcs(attached, host);
    var out: map<string, Overlay> := map[];
    ghost var done: set<string> := {};
    while left != {}
      invariant left + done == VpcsOf(attached, host)
      invariant out.Keys == set vpc | vpc in done && Spans(attached, vpc)
      invariant forall vpc :: vpc in out ==> Computable(attached, vpc, resolve, host, address)
                                             && IsOverlay(attached, vpc, seed(vpc), resolve, host, address, out[vpc])
      decreases left
    {
      var vpc :| vpc in left;
      var o := OverlayIfSpanning(attached, vpc, seed(vpc), resolve, host, address);
      if o.Err? {
        return Err;
      }
      if o.value.Some? {
        out := out[vpc := o.value.value];
      }
      left, done := left - {vpc}, done + {vpc};
    }
    r := Ok(out);
    forall vpc
      ensures vpc in out <==> TakesPart(attached, vpc, host) && exists h :: h != host && TakesPart(attached, vpc, h)
    {
      SpansIff(attached, vpc, host);
    }
  }

  /** The VPCs for which a host configures an overlay are those it shares with another host. */
  lemma SpansIff(attached: seq<Attachment>, vpc: string, host: Host)
    ensures vpc in VpcsOf(attached, host) && Spans(attached, vpc) <==>
            TakesPart(attached, vpc, host) && exists h :: h != host && TakesPart(attached, vpc, h)
  {
    var hosts := HostsOf(attached, vpc);
    forall h ensures h in hosts <==> TakesPart(attached, vpc, h) {
      HostsTakePart(attached, vpc, h);
    }
    if TakesPart(attached, vpc, host) {
      if |hosts| >= 2 {
        if forall h :: h in hosts ==> h == host {
          SubsetSize(hosts, {host});
        }
      }
      if h :| h != host && h in hosts {
        SubsetSize({host, h}, hosts);
      }
    }
  }

  /* ---- what the hosts compute fits together ---- */

  /** Attachment rows carry the address of their host's row. */
  ghost predicate OneAddressEach(attached: seq<Attachment>, addressOf: Host -> string) {
    forall a :: a in attached ==> a.address == addressOf(a.host)
  }

  lemma FirstAddressIs(attached: seq<Attachment>, vpc: string, addressOf: Host -> string, h: Host)
    requires OneAddressEach(attached, addressOf) && h in HostsOf(attached, vpc)
    ensures FirstAddress(attached, vpc, h) == addressOf(h)
  {
    var a :| a in attached && InVpc(a, vpc) && a.host == h;
    var mine := Filter(attached, AttachedTo(vpc, h));
    FilterMembers(attached, AttachedTo(vpc, h), a);
    FilterMembers(attached, AttachedTo(vpc, h), mine[0]);
  }

  lemma AddressInjective(seed: Seed, hosts: set<Host>, g: Host, h: Host)
    requires g in hosts && h in hosts
    ensures Address(seed, Rank(hosts, g)) == Address(seed, Rank(hosts, h)) <==> g == h
  {
    RankInjective(hosts, g, h);
  }

  /**
   * Two hosts of one VPC, each computing alone: the first routes a subnet through
   * the second's own address exactly when that subnet is attached there, and both
   * agree on the segment and list each other as peers.
   */
  lemma HostsAgree(attached: seq<Attachment>, vpc: string, seed: Seed, resolve: Resolver, addressOf: Host -> string,
                   g: Host, h: Host, og: Overlay, oh: Overlay)
    requires OneAddressEach(attached, addressOf) && g != h
    requires IsOverlay(attached, vpc, seed, resolve, g, addressOf(g), og)
    requires IsOverlay(attached, vpc, seed, resolve, h, addressOf(h), oh)
    ensures og.iface == oh.iface && og.vni == oh.vni && og.local != oh.local
    ensures oh.underlay in og.peers && og.underlay in oh.peers
    ensures forall subnet :: (subnet, oh.local) in og.routes <==> OnHost(attached, vpc, h, subnet)
  {
    var hosts := HostsOf(attached, vpc);
    AddressInjective(seed, hosts, g, h);
    FirstAddressIs(attached, vpc, addressOf, g);
    FirstAddressIs(attached, vpc, addressOf, h);
    forall subnet ensures (subnet, oh.local) in og.routes <==> OnHost(attached, vpc, h, subnet) {
      forall a | a in attached && InVpc(a, vpc)
        ensures Address(seed, Rank(hosts, a.host)) == oh.local <==> a.host == h
      {
        AddressInjective(seed, hosts, a.host, h);
      }
    }
  }

  ghost predicate OnHost(attached: seq<Attachment>, vpc: string, h: Host, subnet: string) {
    exists a :: a in attached && a.network.vpc == Some(vpc) && a.host == h && a.network.subnet == subnet
  }

  /** The host has a network of the VPC. */
  ghost predicate TakesPart(attached: seq<Attachment>, vpc: string, h: Host) {
    exists a :: a in attached && a.network.vpc == Some(vpc) && a.host == h
  }

  /** The address of a host: the VPC's two octets and one more than the number of participants that sort before it. */
  ghost predicate IsLocal(attached: seq<Attachment>, vpc: string, seed: Seed, h: Host, ip: Ipv4) {
    var earlier := set a | a in attached && a.network.vpc == Some(vpc) && a.host < h :: a.host;
    ip.a == 100 && ip.b == 64 + seed[3] % 64 && ip.c == seed[4] && ip.d == |earlier| + 1
  }

  /** The device name spells the seed's first four bytes; the identifier has the first three as digits, or is 1. */
  ghost predicate NamedAfter(seed: Seed, o: Overlay) {
    && |o.iface| == 11 && o.iface[..3] == "qvx"
    && (forall i: nat :: i < 4 ==> 16 * HexValue(o.iface[3 + 2 * i]) + HexValue(o.iface[4 + 2 * i]) == seed[i])
    && if seed[0] == 0 && seed[1] == 0 && seed[2] == 0 then o.vni == 1
       else o.vni / 65536 == seed[0] && o.vni / 256 % 256 == seed[1] && o.vni % 256 == seed[2]
  }

  /** An overlay field by field, from the snapshot, the seed and the resolver. */
  ghost predicate Described(attached: seq<Attachment>, vpc: string, seed: Seed, resolve: Resolver,
                            addressOf: Host -> string, host: Host, o: Overlay) {
    && NamedAfter(seed, o) && TakesPart(attached, vpc, host) && resolve(addressOf(host)) == Some(o.underlay)
    && IsLocal(attached, vpc, seed, host, o.local)
    && (forall peer :: peer in o.peers <==>
          exists h :: h != host && TakesPart(attached, vpc, h) && resolve(addressOf(h)) == Some(peer))
    && (forall route :: route in o.routes <==>
          exists h :: h != host && OnHost(attached, vpc, h, route.0) && IsLocal(attached, vpc, seed, h, route.1))
  }

  lemma HostsTakePart(attached: seq<Attachment>, vpc: string, h: Host)
    ensures h in HostsOf(attached, vpc) <==> TakesPart(attached, vpc, h)
  {
  }

  lemma LocalIs(attached: seq<Attachment>, vpc: string, seed: Seed, h: Host, ip: Ipv4)
    ensures IsLocal(attached, vpc, seed, h, ip) <==> ip == Address(seed, Rank(HostsOf(attached, vpc), h))
  {
    var earlier := set a | a in attached && a.network.vpc == Some(vpc) && a.host < h :: a.host;
    assert earlier == Below(HostsOf(attached, vpc), h);
  }

  lemma PeersDescribed(attached: seq<Attachment>, vpc: string, resolve: Resolver, addressOf: Host -> string,
                       host: Host, peer: string)
    requires OneAddressEach(attached, addressOf) && Resolved(attached, vpc, resolve, HostsOf(attached, vpc) - {host})
    ensures peer in Peers(attached, vpc, resolve, HostsOf(attached, vpc) - {host}) <==>
            exists h :: h != host && TakesPart(attached, vpc, h) && resolve(addressOf(h)) == Some(peer)
  {
    forall h | h in HostsOf(attached, vpc) ensures FirstAddress(attached, vpc, h) == addressOf(h) {
      FirstAddressIs(attached, vpc, addressOf, h);
    }
    forall h ensures h in HostsOf(attached, vpc) <==> TakesPart(attached, vpc, h) {
      HostsTakePart(attached, vpc, h);
    }
  }

  lemma RoutesDescribed(attached: seq<Attachment>, vpc: string, seed: Seed, host: Host, route: (string, Ipv4))
    ensures var hosts := HostsOf(attached, vpc);
            route in Routes(attached, vpc, seed, hosts, hosts - {host}) <==>
            exists h :: h != host && OnHost(attached, vpc, h, route.0) && IsLocal(attached, vpc, seed, h, route.1)
  {
    var hosts := HostsOf(attached, vpc);
    forall h ensures IsLocal(attached, vpc, seed, h, route.1) <==> route.1 == Address(seed, Rank(hosts, h)) {
      LocalIs(attached, vpc, seed, h, route.1);
    }
    if a :| a in attached && InVpc(a, vpc) && a.host in hosts - {host}
            && (a.network.subnet, Address(seed, Rank(hosts, a.host))) == route {
      assert OnHost(attached, vpc, a.host, route.0);
    }
    if h :| h != host && OnHost(attached, vpc, h, route.0) && IsLocal(attached, vpc, seed, h, route.1) {
      var a :| a in attached && a.network.vpc == Some(vpc) && a.host == h && a.network.subnet == route.0;
      assert (a.network.subnet, Address(seed, Rank(hosts, a.host))) == route;
    }
  }

  lemma NamedAfterSeed(seed: Seed, o: Overlay)
    requires o.iface == InterfaceName(seed) && o.vni == Vni(seed)
    ensures NamedAfter(seed, o)
  {
    VniDigits(seed);
    NameDigits(seed, 0);
    forall i: nat | i < 4 ensures 16 * HexValue(o.iface[3 + 2 * i]) + HexValue(o.iface[4 + 2 * i]) == seed[i] {
      NameDigits(seed, i);
    }
  }

  /** What a host computes is the overlay the snapshot calls for. */
  lemma OverlayDescribed(attached: seq<Attachment>, vpc: string, seed: Seed, resolve: Resolver,
                         addressOf: Host -> string, host: Host, o: Overlay)
    requires OneAddressEach(attached, addressOf)
    requires IsOverlay(attached, vpc, seed, resolve, host, addressOf(host), o)
             && Computable(attached, vpc, resolve, host, addressOf(host))
    ensures Described(attached, vpc, seed, resolve, addressOf, host, o)
  {
    NamedAfterSeed(seed, o);
    HostsTakePart(attached, vpc, host);
    LocalIs(attached, vpc, seed, host, o.local);
    forall peer
      ensures peer in o.peers <==>
              exists h :: h != host && TakesPart(attached, vpc, h) && resolve(addressOf(h)) == Some(peer)
    {
      PeersDescribed(attached, vpc, resolve, addressOf, host, peer);
    }
    forall route
      ensures route in o.routes <==>
              exists h :: h != host && OnHost(attached, vpc, h, route.0) && IsLocal(attached, vpc, seed, h, route.1)
    {
      RoutesDescribed(attached, vpc, seed, host, route);
    }
  }

  /** Nothing else is routed or flooded to: every hop and every peer is some other participant's own address. */
  lemma NothingElse(attached: seq<Attachment>, vpc: string, seed: Seed, resolve: Resolver, addressOf: Host -> string,
                    g: Host, o: Overlay)
    requires OneAddressEach(attached, addressOf) && IsOverlay(attached, vpc, seed, resolve, g, addressOf(g), o)
    ensures forall route :: route in o.routes ==>
              (exists h ::
                 h in HostsOf(attached, vpc) && h != g && OnHost(attached, vpc, h, route.0)
                 && route.1 == Address(seed, Rank(HostsOf(attached, vpc), h)))
    ensures forall peer :: peer in o.peers ==>
              (exists h :: h in HostsOf(attached, vpc) && h != g && peer == Underlay(resolve, addressOf(h)))
  {
    forall h | h in HostsOf(attached, vpc) ensures FirstAddress(attached, vpc, h) == addressOf(h) {
      FirstAddressIs(attached, vpc, addressOf, h);
    }
  }

  /** The host behind a next hop. */
  lemma HopHost(attached: seq<Attachment>, vpc: string, seed: Seed, resolve: Resolver, g: Host, address: string,
                o: Overlay, subnet: string, hop: Ipv4) returns (h: Host)
    requires IsOverlay(attached, vpc, seed, resolve, g, address, o) && (subnet, hop) in o.routes
    ensures h != g && OnHost(attached, vpc, h, subnet) && hop == Address(seed, Rank(HostsOf(attached, vpc), h))
  {
    var hosts := HostsOf(attached, vpc);
    var a :| a in attached && InVpc(a, vpc) && a.host != g
      && (a.network.subnet, Address(seed, Rank(hosts, a.host))) == (subnet, hop);
    h := a.host;
  }

  lemma HostHop(attached: seq<Attachment>, vpc: string, seed: Seed, resolve: Resolver, g: Host, address: string,
                o: Overlay, subnet: string, h: Host)
    requires IsOverlay(attached, vpc, seed, resolve, g, address, o) && h != g && OnHost(attached, vpc, h, subnet)
    ensures h in HostsOf(attached, vpc) && (subnet, Address(seed, Rank(HostsOf(attached, vpc), h))) in o.routes
  {
  }

  /** A subnet has one next hop exactly when it is attached on at most one other host. */
  lemma NextHopUniqueIff(attached: seq<Attachment>, vpc: string, seed: Seed, resolve: Resolver,
                         g: Host, address: string, o: Overlay, subnet: string)
    requires IsOverlay(attached, vpc, seed, resolve, g, address, o)
    ensures OneHop(o, subnet) <==> OneOther(attached, vpc, g, subnet)
  {
    var hosts := HostsOf(attached, vpc);
    if OneOther(attached, vpc, g, subnet) {
      forall x, y | (subnet, x) in o.routes && (subnet, y) in o.routes ensures x == y {
        var h := HopHost(attached, vpc, seed, resolve, g, address, o, subnet, x);
        var k := HopHost(attached, vpc, seed, resolve, g, address, o, subnet, y);
      }
    } else {
      var h, k :| h != g && k != g && OnHost(attached, vpc, h, subnet) && OnHost(attached, vpc, k, subnet) && h != k;
      HostHop(attached, vpc, seed, resolve, g, address, o, subnet, h);
      HostHop(attached, vpc, seed, resolve, g, address, o, subnet, k);
      AddressInjective(seed, hosts, h, k);
    }
  }

  ghost predicate OneHop(o: Overlay, subnet: string) {
    forall x, y :: (subnet, x) in o.routes && (subnet, y) in o.routes ==> x == y
  }

  ghost predicate OneOther(attached: seq<Attachment>, vpc: string, g: Host, subnet: string) {
    forall h, k ::
      h != g && k != g && OnHost(attached, vpc, h, subnet) && OnHost(attached, vpc, k, subnet) ==> h == k
  }

  const SHARED := Network(0, "10.0.0.0/24", Some("v"), true)

  /**
   * One subnet attached on two other hosts has two next hops, so routing it through its
   * host's address fails for one of them.
   */
  lemma SharedSubnetHasTwoHops(seed: Seed, resolve: Resolver, o: Overlay)
    requires var attached := [Attachment(1, "h1", SHARED, "br"), Attachment(2, "h2", SHARED, "br"),
                              Attachment(3, "h3", SHARED, "br")];
             IsOverlay(attached, "v", seed, resolve, 1, "h1", o)
    ensures exists x, y :: (SHARED.subnet, x) in o.routes && (SHARED.subnet, y) in o.routes && x != y
  {
    var attached := [Attachment(1, "h1", SHARED, "br"), Attachment(2, "h2", SHARED, "br"),
                     Attachment(3, "h3", SHARED, "br")];
    assert attached[1] in attached && attached[2] in attached;
    assert OnHost(attached, "v", 2, SHARED.subnet) && OnHost(attached, "v", 3, SHARED.subnet);
    NextHopUniqueIff(attached, "v", seed, resolve, 1, "h1", o, SHARED.subnet);
    assert !OneHop(o, SHARED.subnet);
  }

  /* ---- which subnets a network may not reach ---- */

  /** attached_networks_for_host. */
  function NetworksOn(cluster: seq<Attachment>, host: Host): seq<(Network, string)> {
    if cluster == [] then []
    else
      var last := cluster[|cluster| - 1];
      NetworksOn(cluster[..|cluster| - 1], host) + (if last.host == host then [(last.network, last.bridge)] else [])
  }

  lemma {:induction false} NetworksOnMembers(cluster: seq<Attachment>, host: Host, n: Network)
    ensures (exists entry :: entry in NetworksOn(cluster, host) && entry.0 == n) <==>
            (exists a :: a in cluster && a.host == host && a.network == n)
  {
    if cluster != [] {
      var front, last := cluster[..|cluster| - 1], cluster[|cluster| - 1];
      NetworksOnMembers(front, host, n);
      assert cluster == front + [last];
      assert NetworksOn(cluster, host) ==
             NetworksOn(front, host) + (if last.host == host then [(last.network, last.bridge)] else []);
      if last.host == host && last.network == n {
        assert (last.network, last.bridge) in NetworksOn(cluster, host);
      }
    }
  }

  /** blocked_subnets_for_network: the host's own list, then the rest of the cluster. */
  function BlockedSubnets(n: Network, host: Host, local: seq<(Network, string)>,
                          cluster: seq<Attachment>): set<string> {
    if n.vpc == None then {}
    else (set entry | entry in local && entry.0.id != n.id && entry.0.vpc != n.vpc :: entry.0.subnet)
         + set a | a in cluster && a.host != host && a.network.id != n.id && a.network.vpc != n.vpc :: a.network.subnet
  }

  function NatExempt(n: Network, cluster: seq<Attachment>): set<string> {
    if n.vpc == None || !n.isolated then {}
    else set a | a in cluster && a.network.id != n.id && a.network.vpc == n.vpc :: a.network.subnet
  }

  /** The same set in one pass over the cluster, whichever host asks. */
  function ForeignSubnets(n: Network, cluster: seq<Attachment>): set<string> {
    if n.vpc == None then {}
    else set a | a in cluster && a.network.id != n.id && a.network.vpc != n.vpc :: a.network.subnet
  }

  lemma BlockedInOnePass(n: Network, host: Host, cluster: seq<Attachment>)
    ensures BlockedSubnets(n, host, NetworksOn(cluster, host), cluster) == ForeignSubnets(n, cluster)
  {
    var local := NetworksOn(cluster, host);
    forall subnet ensures subnet in BlockedSubnets(n, host, local, cluster) <==> subnet in ForeignSubnets(n, cluster) {
      if n.vpc != None {
        if entry :| entry in local && entry.0.id != n.id && entry.0.vpc != n.vpc && entry.0.subnet == subnet {
          NetworksOnMembers(cluster, host, entry.0);
        }
        if a :| a in cluster && a.network.id != n.id && a.network.vpc != n.vpc && a.network.subnet == subnet {
          NetworksOnMembers(cluster, host, a.network);
        }
      }
    }
  }

  /** Networks are identified by their ids. */
  ghost predicate IdsIdentify(cluster: seq<Attachment>) {
    forall a, b :: a in cluster && b in cluster && a.network.id == b.network.id ==> a.network == b.network
  }

  /** Attached networks of two named VPCs block each other, wherever each is attached and whichever host asks. */
  lemma NamedVpcsBlockEachOther(cluster: seq<Attachment>, a: Attachment, b: Attachment, g: Host, h: Host)
    requires IdsIdentify(cluster) && a in cluster && b in cluster
    requires a.network.vpc.Some? && b.network.vpc.Some? && a.network.vpc != b.network.vpc
    ensures b.network.subnet in BlockedSubnets(a.network, g, NetworksOn(cluster, g), cluster)
    ensures a.network.subnet in BlockedSubnets(b.network, h, NetworksOn(cluster, h), cluster)
  {
    BlockedInOnePass(a.network, g, cluster);
    BlockedInOnePass(b.network, h, cluster);
  }

  /** A subnet is blocked exactly when it belongs to a network outside the VPC, on whichever host that is. */
  lemma BlockedIff(n: Network, host: Host, cluster: seq<Attachment>, subnet: string)
    ensures subnet in BlockedSubnets(n, host, NetworksOn(cluster, host), cluster) <==>
            n.vpc != None && exists a :: a in cluster && a.network.id != n.id && a.network.vpc != n.vpc
                                         && a.network.subnet == subnet
  {
    BlockedInOnePass(n, host, cluster);
  }

  /** A subnet is exempt from NAT iff it belongs to another network of the same VPC and this one is isolated. */
  lemma ExemptIff(n: Network, cluster: seq<Attachment>, subnet: string)
    ensures subnet in NatExempt(n, cluster) <==>
            n.vpc != None && n.isolated && exists a :: a in cluster && a.network.id != n.id && a.network.vpc == n.vpc
                                                       && a.network.subnet == subnet
  {
  }

  /** For an isolated network every other attached network is either exempt from NAT or blocked. */
  lemma ExemptOrBlocked(n: Network, host: Host, cluster: seq<Attachment>)
    requires n.vpc.Some? && n.isolated
    ensures NatExempt(n, cluster) + BlockedSubnets(n, host, NetworksOn(cluster, host), cluster) ==
            set a | a in cluster && a.network.id != n.id :: a.network.subnet
  {
    BlockedInOnePass(n, host, cluster);
  }
}
