/**
 * From one cluster snapshot to the kernels of two hosts: what the control plane
 * computes for each host (NetworkPolicy) and what the node agents make of it
 * (Vxlan) fit together.
 */
module OverlayNetwork {
  import opened Common
  import opened IptablesKernel
  import opened NetworkPolicy
  import opened Validation
  import AddressText
  import Vxlan

  /** Dotted decimal, as it is sent to the node. */
  function Text(ip: Ipv4): string {
    Decimal(ip.a) + "." + Decimal(ip.b) + "." + Decimal(ip.c) + "." + Decimal(ip.d)
  }

  function RouteTexts(routes: seq<(string, Ipv4)>): seq<(string, string)> {
    seq(|routes|, i requires 0 <= i < |routes| => (routes[i].0, Text(routes[i].1)))
  }

  /** The message for one overlay: its peers and routes in some order. */
  ghost predicate Sends(o: Overlay, c: Vxlan.Overlay) {
    && c.name == o.iface && c.vni == o.vni && c.underlay == o.underlay && c.cidr == Text(o.local) + "/24"
    && Elements(c.peers) == o.peers
    && exists routes: seq<(string, Ipv4)> :: Elements(routes) == o.routes && c.routes == RouteTexts(routes)
  }

  lemma {:induction false} LastWinsUnique(routes: seq<(string, string)>, subnet: string, via: string)
    requires (subnet, via) in routes && forall r :: r in routes && r.0 == subnet ==> r.1 == via
    ensures subnet in Vxlan.LastWins(routes) && Vxlan.LastWins(routes)[subnet] == via
  {
    var front, last := routes[..|routes| - 1], routes[|routes| - 1];
    assert routes == front + [last];
    if last.0 != subnet {
      LastWinsUnique(front, subnet, via);
    } else {
      assert last in routes;
    }
  }

  /** A subnet with one next hop is routed through that hop's text. */
  lemma RoutedVia(o: Overlay, c: Vxlan.Overlay, subnet: string, hop: Ipv4)
    requires Sends(o, c) && (subnet, hop) in o.routes && forall x :: (subnet, x) in o.routes ==> x == hop
    ensures subnet in Vxlan.LastWins(c.routes) && Vxlan.LastWins(c.routes)[subnet] == Text(hop)
  {
    var routes: seq<(string, Ipv4)> :| Elements(routes) == o.routes && c.routes == RouteTexts(routes);
    assert (subnet, hop) in Elements(routes);
    var i :| 0 <= i < |routes| && routes[i] == (subnet, hop);
    assert c.routes[i] == (subnet, Text(hop));
    forall r | r in c.routes && r.0 == subnet ensures r.1 == Text(hop) {
      var j :| 0 <= j < |c.routes| && c.routes[j] == r;
      assert routes[j] in Elements(routes) && routes[j] == (subnet, routes[j].1);
    }
    LastWinsUnique(c.routes, subnet, Text(hop));
  }

  /** What one host's kernel holds for an overlay after its node synced all of them. */
  ghost predicate Applied(links: Vxlan.Links, start: Vxlan.Links, configs: seq<Vxlan.Overlay>, c: Vxlan.Overlay) {
    Vxlan.DistinctNames(configs) && c in configs && links == Vxlan.Synced(start, configs)
  }

  /**
   * Host g's kernel sends a subnet that only host h has to the very address that
   * h's kernel holds on its end of the tunnel, and floods to h's underlay address.
   */
  lemma KernelsMeet(attached: seq<Attachment>, vpc: string, seed: Seed, resolve: Resolver, addressOf: Host -> string,
                    g: Host, h: Host, og: Overlay, oh: Overlay, cg: Vxlan.Overlay, ch: Vxlan.Overlay,
                    startG: Vxlan.Links, startH: Vxlan.Links, linksG: Vxlan.Links, linksH: Vxlan.Links,
                    configsG: seq<Vxlan.Overlay>, configsH: seq<Vxlan.Overlay>, subnet: string)
    requires OneAddressEach(attached, addressOf) && g != h
    requires IsOverlay(attached, vpc, seed, resolve, g, addressOf(g), og) && Sends(og, cg)
    requires IsOverlay(attached, vpc, seed, resolve, h, addressOf(h), oh) && Sends(oh, ch)
    requires Applied(linksG, startG, configsG, cg) && Applied(linksH, startH, configsH, ch)
    requires OnHost(attached, vpc, h, subnet) && forall k :: k != g && OnHost(attached, vpc, k, subnet) ==> k == h
    ensures cg.name == ch.name && cg.name in linksG && ch.name in linksH
    ensures linksH[ch.name].addresses == {Text(oh.local) + "/24"}
    ensures subnet in linksG[cg.name].routes && linksG[cg.name].routes[subnet] == Text(oh.local)
    ensures oh.underlay in linksG[cg.name].flood && og.underlay in linksH[ch.name].flood
  {
    HostsAgree(attached, vpc, seed, resolve, addressOf, g, h, og, oh);
    NextHopUniqueIff(attached, vpc, seed, resolve, g, addressOf(g), og, subnet);
    assert (subnet, oh.local) in og.routes;
    RoutedVia(og, cg, subnet, oh.local);
    Vxlan.SyncConverges(startG, configsG);
    Vxlan.SyncConverges(startH, configsH);
  }

  lemma {:induction false} LastWinsSome(routes: seq<(string, string)>, subnet: string)
    requires exists r :: r in routes && r.0 == subnet
    ensures subnet in Vxlan.LastWins(routes) && (subnet, Vxlan.LastWins(routes)[subnet]) in routes
  {
    var front, last := routes[..|routes| - 1], routes[|routes| - 1];
    assert routes == front + [last];
    if last.0 != subnet {
      LastWinsSome(front, subnet);
    } else {
      assert last in routes && last == (subnet, last.1);
    }
  }

  /** A subnet with several next hops is routed through the text of one of them. */
  lemma RoutedViaSome(o: Overlay, c: Vxlan.Overlay, subnet: string, hop: Ipv4) returns (via: Ipv4)
    requires Sends(o, c) && (subnet, hop) in o.routes
    ensures (subnet, via) in o.routes
    ensures subnet in Vxlan.LastWins(c.routes) && Vxlan.LastWins(c.routes)[subnet] == Text(via)
  {
    var routes: seq<(string, Ipv4)> :| Elements(routes) == o.routes && c.routes == RouteTexts(routes);
    assert (subnet, hop) in Elements(routes);
    var i :| 0 <= i < |routes| && routes[i] == (subnet, hop);
    assert c.routes[i] in c.routes && c.routes[i].0 == subnet;
    LastWinsSome(c.routes, subnet);
    var j :| 0 <= j < |c.routes| && c.routes[j] == (subnet, Vxlan.LastWins(c.routes)[subnet]);
    assert routes[j] in Elements(routes);
    via := routes[j].1;
    assert routes[j] == (subnet, via);
  }

  /** The address a host has on the overlay of the VPC. */
  ghost function LocalOf(attached: seq<Attachment>, vpc: string, seed: Seed, h: Host): Ipv4 {
    Address(seed, Rank(HostsOf(attached, vpc), h))
  }

  /** Every host's kernel holds its own overlay address and no other. */
  lemma KernelHolds(attached: seq<Attachment>, vpc: string, seed: Seed, resolve: Resolver, h: Host, address: string,
                    o: Overlay, c: Vxlan.Overlay, start: Vxlan.Links, links: Vxlan.Links, configs: seq<Vxlan.Overlay>)
    requires IsOverlay(attached, vpc, seed, resolve, h, address, o) && Sends(o, c) && Applied(links, start, configs, c)
    ensures c.name in links && links[c.name].addresses == {Text(LocalOf(attached, vpc, seed, h)) + "/24"}
  {
    Vxlan.SyncConverges(start, configs);
  }

  /**
   * However many other hosts have a subnet, host g's kernel sends it to the address of
   * one of them.
   */
  lemma KernelsMeetSome(attached: seq<Attachment>, vpc: string, seed: Seed, resolve: Resolver, g: Host, address: string,
                        h: Host, og: Overlay, cg: Vxlan.Overlay, start: Vxlan.Links, links: Vxlan.Links,
                        configs: seq<Vxlan.Overlay>, subnet: string) returns (k: Host)
    requires IsOverlay(attached, vpc, seed, resolve, g, address, og) && Sends(og, cg)
    requires Applied(links, start, configs, cg) && h != g && OnHost(attached, vpc, h, subnet)
    ensures k != g && OnHost(attached, vpc, k, subnet)
    ensures cg.name in links && subnet in links[cg.name].routes
    ensures links[cg.name].routes[subnet] == Text(LocalOf(attached, vpc, seed, k))
  {
    HostHop(attached, vpc, seed, resolve, g, address, og, subnet, h);
    var via := RoutedViaSome(og, cg, subnet, LocalOf(attached, vpc, seed, h));
    k := HopHost(attached, vpc, seed, resolve, g, address, og, subnet, via);
    Vxlan.SyncConverges(start, configs);
  }

  /* ---- the node accepts what it is sent ---- */

  lemma TextIsDotted(ip: Ipv4)
    ensures Text(ip) == AddressText.Dotted(ip.a, ip.b, ip.c, ip.d)
  {
  }

  lemma Slash24(address: string)
    requires ValidIpv4Address(address)
    ensures ValidIpv4Cidr(address + "/24")
  {
    NoSlash(address);
    LengthText(address);
    AddressText.CidrIff(address, 24);
  }

  lemma NoSlash(address: string)
    requires ValidIpv4Address(address)
    ensures '/' !in address
  {
    OctetsAlphabet(address, 4);
  }

  lemma LengthText(address: string)
    ensures address + "/" + Decimal(24) == address + "/24"
  {
    assert Decimal(2) == "2";
    assert Decimal(24) == "24" && "/" + "24" == "/24";
    assert address + "/" + "24" == address + ("/" + "24");
  }

  lemma TextAccepted(ip: Ipv4)
    requires ip.a < 256 && ip.b < 256 && ip.c < 256 && ip.d < 256
    ensures ValidIpv4Address(Text(ip))
  {
    TextIsDotted(ip);
    AddressText.DottedIff(ip.a, ip.b, ip.c, ip.d);
  }

  lemma LocalAccepted(seed: Seed, index: nat)
    requires index < 254
    ensures ValidIpv4Address(Text(Address(seed, index))) && ValidIpv4Cidr(Text(Address(seed, index)) + "/24")
  {
    NamingInRange(seed, index);
    TextAccepted(Address(seed, index));
    Slash24(Text(Address(seed, index)));
  }

  lemma {:induction false} HexAlphabet(bytes: seq<Byte>)
    ensures forall c :: c in Hex(bytes) ==> 'a' <= c <= 'z' || '0' <= c <= '9'
  {
    if bytes != [] {
      HexAlphabet(bytes[1..]);
    }
  }

  lemma NameAccepted(seed: Seed)
    ensures ValidIfaceName(InterfaceName(seed))
  {
    HexAlphabet(seed[..4]);
    NameDigits(seed, 0);
    assert InterfaceName(seed)[0] == 'q';
    AddressText.NameIff(InterfaceName(seed));
  }

  lemma HopsAccepted(attached: seq<Attachment>, vpc: string, seed: Seed, hosts: set<Host>, others: set<Host>,
                     r: (string, Ipv4))
    requires r in Routes(attached, vpc, seed, hosts, others) && others <= hosts && |hosts| <= 254
    requires forall a :: a in attached ==> ValidIpv4Cidr(a.network.subnet)
    ensures ValidIpv4Cidr(r.0) && ValidIpv4Address(Text(r.1))
  {
    var a :| a in attached && InVpc(a, vpc) && a.host in others
      && (a.network.subnet, Address(seed, Rank(hosts, a.host))) == r;
    RankBound(hosts, a.host);
    LocalAccepted(seed, Rank(hosts, a.host));
  }

  lemma PeersAccepted(attached: seq<Attachment>, vpc: string, resolve: Resolver, others: set<Host>, p: string)
    requires p in Peers(attached, vpc, resolve, others) && Resolved(attached, vpc, resolve, others)
    requires forall address :: resolve(address).Some? ==> ValidIpv4Address(resolve(address).value)
    ensures ValidIpv4Address(p)
  {
    var h :| h in others && p == Underlay(resolve, FirstAddress(attached, vpc, h));
  }

  ghost predicate GoodRoutes(routes: seq<(string, string)>) {
    forall r :: r in routes ==> ValidIpv4Cidr(r.0) && ValidIpv4Address(r.1)
  }

  lemma RoutesAccepted(attached: seq<Attachment>, vpc: string, seed: Seed, hosts: set<Host>, others: set<Host>,
                       routes: seq<(string, Ipv4)>)
    requires Elements(routes) == Routes(attached, vpc, seed, hosts, others) && others <= hosts && |hosts| <= 254
    requires forall a :: a in attached ==> ValidIpv4Cidr(a.network.subnet)
    ensures GoodRoutes(RouteTexts(routes))
  {
    var texts := RouteTexts(routes);
    forall r | r in texts ensures ValidIpv4Cidr(r.0) && ValidIpv4Address(r.1) {
      var i :| 0 <= i < |texts| && texts[i] == r;
      assert routes[i] in Elements(routes);
      HopsAccepted(attached, vpc, seed, hosts, others, routes[i]);
    }
  }

  /**
   * Whatever the control plane computes passes the node's checks, provided networks have
   * valid subnets and host addresses resolve to valid ones.
   */
  lemma NodeAccepts(attached: seq<Attachment>, vpc: string, seed: Seed, resolve: Resolver, h: Host, address: string,
                    o: Overlay, c: Vxlan.Overlay)
    requires IsOverlay(attached, vpc, seed, resolve, h, address, o) && Sends(o, c)
             && Computable(attached, vpc, resolve, h, address)
    requires forall a :: a in attached ==> ValidIpv4Cidr(a.network.subnet)
    requires forall a :: resolve(a).Some? ==> ValidIpv4Address(resolve(a).value)
    ensures Vxlan.ValidOverlay(c)
  {
    var hosts := HostsOf(attached, vpc);
    NameAccepted(seed);
    RankBound(hosts, h);
    LocalAccepted(seed, Rank(hosts, h));
    forall p | p in c.peers ensures ValidIpv4Address(p) {
      assert p in Elements(c.peers);
      PeersAccepted(attached, vpc, resolve, hosts - {h}, p);
    }
    var routes: seq<(string, Ipv4)> :| Elements(routes) == o.routes && c.routes == RouteTexts(routes);
    RoutesAccepted(attached, vpc, seed, hosts, hosts - {h}, routes);
  }
}
