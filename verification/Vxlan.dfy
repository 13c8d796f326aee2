/**
 * Reconciling the VXLAN devices of a node with the overlays it was sent
 * (qarax-node/src/networking/vxlan.rs). Listings are read as kernel state.
 */
module Vxlan {
  import opened Common
  import opened IptablesKernel
  import opened Validation
  import opened ForwardText

  datatype Tunnel = Tunnel(vni: int, local: string, port: int, learning: bool)

  /** A device: tunnel attributes, IPv4 addresses, flood entries and static routes by subnet. */
  datatype Link = Link(tunnel: Option<Tunnel>, addresses: set<string>, up: bool,
                       flood: set<string>, routes: map<string, string>)

  type Links = map<string, Link>

  datatype Overlay = Overlay(name: string, vni: int, underlay: string, cidr: string,
                             peers: seq<string>, routes: seq<(string, string)>)

  predicate Managed(name: string) {
    "qvx" <= name
  }

  predicate ValidOverlay(o: Overlay) {
    && ValidIfaceName(o.name) && ValidIpv4Address(o.underlay) && ValidIpv4Cidr(o.cidr)
    && (forall p :: p in o.peers ==> ValidIpv4Address(p))
    && (forall r :: r in o.routes ==> ValidIpv4Cidr(r.0) && ValidIpv4Address(r.1))
  }

  ghost predicate Acceptable(links: Links, os: seq<Overlay>) {
    (forall o :: o in os ==> ValidOverlay(o)) && forall n :: n in links && Managed(n) ==> ValidIfaceName(n)
  }

  /* ---- what a run should leave behind ---- */

  /** The tokens `ip -d link show` prints about a tunnel. */
  function Shown(t: Tunnel): seq<string> {
    ["vxlan", "id", Decimal(t.vni), "local", t.local, "dstport", Decimal(t.port),
     if t.learning then "learning" else "nolearning"]
  }

  /** The device text is searched for four unterminated strings. */
  predicate Resembles(link: Link, o: Overlay) {
    link.tunnel.Some? &&
    var text := Join(Shown(link.tunnel.value));
    && Contains(text, "vxlan id " + Decimal(o.vni)) && Contains(text, "local " + o.underlay)
    && Contains(text, "dstport 4789") && Contains(text, "nolearning")
  }

  function Fresh(o: Overlay): Tunnel {
    Tunnel(o.vni, o.underlay, 4789, false)
  }

  function TunnelAfter(links: Links, o: Overlay): Option<Tunnel> {
    if o.name in links && Resembles(links[o.name], o) then links[o.name].tunnel else Some(Fresh(o))
  }

  /** The last entry for a subnet counts. */
  function LastWins(routes: seq<(string, string)>): map<string, string> {
    if routes == [] then map[] else LastWins(routes[..|routes| - 1])[routes[|routes| - 1].0 := routes[|routes| - 1].1]
  }

  function Reconciled(links: Links, o: Overlay): Links {
    links[o.name := Link(TunnelAfter(links, o), {o.cidr}, true, Elements(o.peers), LastWins(o.routes))]
  }

  function ReconciledAll(links: Links, os: seq<Overlay>): Links {
    if os == [] then links else Reconciled(ReconciledAll(links, os[..|os| - 1]), os[|os| - 1])
  }

  function Names(os: seq<Overlay>): set<string> {
    set o | o in os :: o.name
  }

  function Stale(links: Links, os: seq<Overlay>): set<string> {
    set n | n in links && Managed(n) && n !in Names(os)
  }

  function Synced(links: Links, os: seq<Overlay>): Links {
    ReconciledAll(links, os) - Stale(links, os)
  }

  /* ---- what that state is ---- */

  predicate DistinctNames(os: seq<Overlay>) {
    forall i, j :: 0 <= i < j < |os| ==> os[i].name != os[j].name
  }

  lemma {:induction false} ReconciledElsewhere(links: Links, os: seq<Overlay>, n: string)
    requires n !in Names(os)
    ensures n in ReconciledAll(links, os) <==> n in links
    ensures n in links ==> ReconciledAll(links, os)[n] == links[n]
  {
    if os != [] {
      assert os[|os| - 1] in os;
      ReconciledElsewhere(links, os[..|os| - 1], n);
    }
  }

  lemma {:induction false} ReconciledAt(links: Links, os: seq<Overlay>, k: nat)
    requires DistinctNames(os) && k < |os|
    ensures os[k].name in ReconciledAll(links, os)
    ensures ReconciledAll(links, os)[os[k].name] == Reconciled(links, os[k])[os[k].name]
  {
    var front := os[..|os| - 1];
    if k < |os| - 1 {
      ReconciledAt(links, front, k);
    } else {
      assert os[k].name !in Names(front);
      ReconciledElsewhere(links, front, os[k].name);
    }
  }

  lemma ReconciledAllAt(links: Links, os: seq<Overlay>)
    requires DistinctNames(os)
    ensures ReconciledAll(links, os).Keys == links.Keys + Names(os)
    ensures forall n :: n in links && n !in Names(os) ==> ReconciledAll(links, os)[n] == links[n]
    ensures forall o :: o in os ==>
              o.name in ReconciledAll(links, os) && ReconciledAll(links, os)[o.name] == Reconciled(links, o)[o.name]
  {
    forall o | o in os
      ensures o.name in ReconciledAll(links, os) && ReconciledAll(links, os)[o.name] == Reconciled(links, o)[o.name]
    {
      var k :| 0 <= k < |os| && os[k] == o;
      ReconciledAt(links, os, k);
    }
    forall n | n !in Names(os) ensures n in ReconciledAll(links, os) <==> n in links
                               ensures n in links ==> ReconciledAll(links, os)[n] == links[n] {
      ReconciledElsewhere(links, os, n);
    }
  }

  /**
   * From any kernel state the managed devices end up being exactly the desired
   * ones, each with one address, its peers and its routes; no other device is touched.
   */
  lemma SyncConverges(links: Links, os: seq<Overlay>)
    requires DistinctNames(os)
    ensures forall n :: n in Synced(links, os) <==> n in Names(os) || (n in links && !("qvx" <= n))
    ensures forall n :: n in links && !("qvx" <= n) && n !in Names(os) ==> Synced(links, os)[n] == links[n]
    ensures forall o :: o in os ==> Synced(links, os)[o.name].addresses == {o.cidr} && Synced(links, os)[o.name].up
    ensures forall o :: o in os ==> Synced(links, os)[o.name].flood == Elements(o.peers)
    ensures forall o :: o in os ==> Synced(links, os)[o.name].routes == LastWins(o.routes)
    ensures forall o :: o in os ==> Resembles(Synced(links, os)[o.name], o)
  {
    ReconciledAllAt(links, os);
    forall o | o in os ensures Resembles(Reconciled(links, o)[o.name], o) {
      FreshResembles(links, o);
    }
  }

  lemma FreshResembles(links: Links, o: Overlay)
    ensures Resembles(Reconciled(links, o)[o.name], o)
  {
    if !(o.name in links && Resembles(links[o.name], o)) {
      ShowsItself(Fresh(o).vni, o.underlay);
    }
  }

  lemma PortText()
    ensures Decimal(4789) == "4789"
  {
    assert Decimal(478) == "478" by { assert Decimal(47) == "47"; }
  }

  lemma ShowsItself(vni: int, local: string)
    ensures Resembles(Link(Some(Tunnel(vni, local, 4789, false)), {}, false, {}, map[]),
                      Overlay("", vni, local, "", [], []))
  {
    var t := Shown(Tunnel(vni, local, 4789, false));
    var n := Decimal(vni);
    PortText();
    HoldsThree([], "vxlan", "id", n, ["local", local, "dstport", "4789", "nolearning"]);
    HoldsTwo(["vxlan", "id", n], "local", local, ["dstport", "4789", "nolearning"]);
    HoldsTwo(["vxlan", "id", n, "local", local], "dstport", "4789", ["nolearning"]);
    HoldsOne(["vxlan", "id", n, "local", local, "dstport", "4789"], "nolearning");
    assert t == [] + ["vxlan", "id", n] + ["local", local, "dstport", "4789", "nolearning"];
    assert t == ["vxlan", "id", n] + ["local", local] + ["dstport", "4789", "nolearning"];
    assert t == ["vxlan", "id", n, "local", local] + ["dstport", "4789"] + ["nolearning"];
    assert t == ["vxlan", "id", n, "local", local, "dstport", "4789"] + ["nolearning"] + [];
    assert "vxlan" + " " + "id" + " " + n == "vxlan id " + n && "local" + " " + local == "local " + local;
    assert "dstport" + " " + "4789" == "dstport 4789";
  }

  lemma HoldsOne(before: seq<string>, a: string)
    ensures Contains(Join(before + [a] + []), a)
  {
    JoinHolds(before, [a], []);
  }

  lemma HoldsTwo(before: seq<string>, a: string, b: string, after: seq<string>)
    ensures Contains(Join(before + [a, b] + after), a + " " + b)
  {
    JoinHolds(before, [a, b], after);
    JoinTwo(a, b);
  }

  lemma HoldsThree(before: seq<string>, a: string, b: string, c: string, after: seq<string>)
    ensures Contains(Join(before + [a, b, c] + after), a + " " + b + " " + c)
  {
    JoinHolds(before, [a, b, c], after);
    JoinThree(a, b, c);
  }

  lemma {:induction false} DecimalAlphabet(n: int)
    ensures Decimal(n) != "" && SpaceFree(Decimal(n)) && (IsDigit(Decimal(n)[0]) || Decimal(n)[0] == '-')
    ensures forall c :: c in Decimal(n) ==> IsDigit(c) || c == '-'
    decreases if n < 0 then 1 - n else n
  {
    if n < 0 {
      DecimalAlphabet(-n);
    } else if n >= 10 {
      DecimalAlphabet(n / 10);
    }
    assert n >= 0 ==> IsDigit(Digit(n % 10));
  }

  /** The tokens of a device text, its key words given. */
  predicate TextShape(t: seq<string>, kind: string, id: string, place: string, port: string) {
    && |t| == 8 && t[0] == kind && t[1] == id && t[3] == place && t[5] == port && Tokens(t)
    && (forall k :: 0 <= k < 8 && t[k] == id ==> k == 1)
    && (forall k :: 0 <= k < 8 && StartsWithDigit(t[k]) ==> k == 2 || k == 4 || k == 6)
    && !EndsWith(id, place) && !EndsWith(port, place) && !EndsWith(id, port) && !EndsWith(place, port)
  }

  lemma TextSays(t: seq<string>, kind: string, id: string, place: string, port: string,
                 n: string, ip: string, p: string)
    requires TextShape(t, kind, id, place, port) && n != "" && SpaceFree(n)
    requires StartsWithDigit(ip) && SpaceFree(ip) && StartsWithDigit(p) && SpaceFree(p)
    ensures Contains(Join(t), kind + " " + (id + " " + n)) <==> n <= t[2]
    ensures Contains(Join(t), place + " " + ip) <==> ip <= t[4]
    ensures Contains(Join(t), port + " " + p) <==> p <= t[6]
  {
    assert t[0] in t && t[1] in t && t[3] in t && t[5] in t;
    TripleAt(t, kind, id, n, 0);
    forall k | 0 <= k < |t| - 1 && k != 3 && EndsWith(t[k], place) ensures !(ip <= t[k + 1]) {
      DigitPrefix(ip, t[k + 1]);
    }
    PairAt(t, place, ip, 3);
    forall k | 0 <= k < |t| - 1 && k != 5 && EndsWith(t[k], port) ensures !(p <= t[k + 1]) {
      DigitPrefix(p, t[k + 1]);
    }
    PairAt(t, port, p, 5);
  }

  lemma KeyWords()
    ensures SpaceFree("vxlan") && SpaceFree("id") && SpaceFree("local") && SpaceFree("dstport")
    ensures SpaceFree("learning") && SpaceFree("nolearning") && SpaceFree("4789")
    ensures !EndsWith("id", "local") && !EndsWith("dstport", "local") && !EndsWith("id", "dstport")
            && !EndsWith("local", "dstport")
  {
    assert "dstport"[6] == 't' && "local"[4] == 'l';
  }

  lemma MakeText(kind: string, id: string, n: string, place: string, ip: string, port: string, p: string, mode: string)
    requires Tokens([kind, id, n, place, ip, port, p, mode])
    requires !StartsWithDigit(kind) && !StartsWithDigit(id) && !StartsWithDigit(place) && !StartsWithDigit(port)
             && !StartsWithDigit(mode)
    requires kind != id && place != id && port != id && mode != id && n != id && ip != id && p != id
    requires !EndsWith(id, place) && !EndsWith(port, place) && !EndsWith(id, port) && !EndsWith(place, port)
    ensures TextShape([kind, id, n, place, ip, port, p, mode], kind, id, place, port)
  {
    var t := [kind, id, n, place, ip, port, p, mode];
    assert t[0] in t && t[1] in t && t[3] in t && t[5] in t && t[7] in t;
  }

  lemma ShownShape(t: Tunnel)
    requires t.local != "" && SpaceFree(t.local) && t.local[0] != 'i'
    ensures TextShape(Shown(t), "vxlan", "id", "local", "dstport")
  {
    KeyWords();
    DecimalAlphabet(t.vni);
    DecimalAlphabet(t.port);
    assert "vxlan"[0] == 'v' && "id"[0] == 'i' && "local"[0] == 'l' && "dstport"[0] == 'd';
    assert "learning"[0] == 'l' && "nolearning"[0] == 'n';
    MakeText("vxlan", "id", Decimal(t.vni), "local", t.local, "dstport", Decimal(t.port),
             if t.learning then "learning" else "nolearning");
  }

  lemma LearningShown(t: Tunnel)
    requires 'n' !in t.local
    ensures Contains(Join(Shown(t)), "nolearning") <==> !t.learning
  {
    var tokens := Shown(t);
    KeyWords();
    DecimalAlphabet(t.vni);
    DecimalAlphabet(t.port);
    ContainsWord(tokens, "nolearning");
    assert "nolearning"[0] == 'n' && 'n' in "nolearning";
    forall k | 0 <= k < 7 ensures !Contains(tokens[k], "nolearning") {
      ContainsMembers(tokens[k], "nolearning");
    }
    ModeShown(tokens[7]);
  }

  lemma ModeShown(mode: string)
    requires mode == "learning" || mode == "nolearning"
    ensures Contains(mode, "nolearning") <==> mode == "nolearning"
  {
    assert ContainsAt("nolearning", "nolearning", 0);
  }

  /**
   * What passes for the wanted device: its identifier, address and port may be longer than
   * the wanted ones, as long as they start alike.
   */
  lemma ResemblesIff(link: Link, o: Overlay)
    requires ValidIpv4Address(o.underlay) && (link.tunnel.Some? ==> ValidIpv4Address(link.tunnel.value.local))
    ensures Resembles(link, o) <==>
            && link.tunnel.Some? && Decimal(o.vni) <= Decimal(link.tunnel.value.vni)
            && o.underlay <= link.tunnel.value.local
            && "4789" <= Decimal(link.tunnel.value.port) && !link.tunnel.value.learning
  {
    if link.tunnel.Some? {
      var t := link.tunnel.value;
      OctetsAlphabet(t.local, 4);
      OctetsAlphabet(o.underlay, 4);
      FirstIsDigit(t.local);
      FirstIsDigit(o.underlay);
      TunnelText(t, o.vni, o.underlay);
    }
  }

  lemma TunnelText(t: Tunnel, vni: int, ip: string)
    requires StartsWithDigit(t.local) && SpaceFree(t.local) && 'n' !in t.local && StartsWithDigit(ip) && SpaceFree(ip)
    ensures Contains(Join(Shown(t)), "vxlan id " + Decimal(vni)) <==> Decimal(vni) <= Decimal(t.vni)
    ensures Contains(Join(Shown(t)), "local " + ip) <==> ip <= t.local
    ensures Contains(Join(Shown(t)), "dstport 4789") <==> "4789" <= Decimal(t.port)
    ensures Contains(Join(Shown(t)), "nolearning") <==> !t.learning
  {
    LearningShown(t);
    DecimalAlphabet(vni);
    SearchedTexts(Decimal(vni), ip);
    TunnelSays(t, Decimal(vni), ip);
  }

  lemma SearchedTexts(n: string, ip: string)
    ensures "vxlan id " + n == "vxlan" + " " + ("id" + " " + n) && "local " + ip == "local" + " " + ip
    ensures "dstport 4789" == "dstport" + " " + "4789"
  {
  }

  lemma TunnelSays(t: Tunnel, n: string, ip: string)
    requires StartsWithDigit(t.local) && SpaceFree(t.local) && n != "" && SpaceFree(n)
    requires StartsWithDigit(ip) && SpaceFree(ip)
    ensures Contains(Join(Shown(t)), "vxlan" + " " + ("id" + " " + n)) <==> n <= Shown(t)[2]
    ensures Contains(Join(Shown(t)), "local" + " " + ip) <==> ip <= Shown(t)[4]
    ensures Contains(Join(Shown(t)), "dstport" + " " + "4789") <==> "4789" <= Shown(t)[6]
  {
    KeyWords();
    ShownShape(t);
    TextSays(Shown(t), "vxlan", "id", "local", "dstport", n, ip, "4789");
  }

  /** The device has the wanted identifier, address and port and does not learn. */
  ghost predicate WantedTunnel(link: Link, o: Overlay) {
    && link.tunnel.Some? && link.tunnel.value.vni == o.vni && link.tunnel.value.local == o.underlay
    && link.tunnel.value.port == 4789 && !link.tunnel.value.learning
  }

  /** Its identifier, address and port merely start with the wanted ones. */
  ghost predicate Lookalike(link: Link, o: Overlay) {
    && link.tunnel.Some? && Decimal(o.vni) <= Decimal(link.tunnel.value.vni) && o.underlay <= link.tunnel.value.local
    && "4789" <= Decimal(link.tunnel.value.port) && !link.tunnel.value.learning
  }

  /** The tunnel attributes end up as wanted, unless a lookalike was there: then they stay as they were. */
  lemma AttributesConvergeIff(links: Links, os: seq<Overlay>, o: Overlay)
    requires DistinctNames(os) && o in os && ValidIpv4Address(o.underlay)
    requires o.name in links && links[o.name].tunnel.Some? ==> ValidIpv4Address(links[o.name].tunnel.value.local)
    ensures o.name in Synced(links, os)
    ensures o.name in links && Lookalike(links[o.name], o) ==> Synced(links, os)[o.name].tunnel == links[o.name].tunnel
    ensures WantedTunnel(Synced(links, os)[o.name], o) <==>
            (o.name in links && Lookalike(links[o.name], o) ==> WantedTunnel(links[o.name], o))
  {
    ReconciledAllAt(links, os);
    if o.name in links {
      ResemblesIff(links[o.name], o);
    }
  }

  const SEGMENT_ONE := Overlay("qvx1", 1, "10.0.0.1", "100.64.0.1/24", [], [])

  /** A device of segment 12 is kept when segment 1 is wanted. */
  lemma OtherSegmentMaySurvive(link: Link)
    requires link.tunnel == Some(Tunnel(12, "10.0.0.1", 4789, false))
    ensures Synced(map["qvx1" := link], [SEGMENT_ONE])["qvx1"].tunnel == Some(Tunnel(12, "10.0.0.1", 4789, false))
  {
    var links := map["qvx1" := link];
    assert Decimal(12) == "12" && Decimal(1) == "1" && "12"[..1] == "1";
    PortText();
    TunnelText(link.tunnel.value, 1, "10.0.0.1");
    assert Resembles(link, SEGMENT_ONE);
    assert SEGMENT_ONE in [SEGMENT_ONE];
    ReconciledAllAt(links, [SEGMENT_ONE]);
  }

  /** A second run changes nothing. */
  lemma SyncIsIdempotent(links: Links, os: seq<Overlay>)
    requires DistinctNames(os)
    ensures Synced(Synced(links, os), os) == Synced(links, os)
  {
    var once := Synced(links, os);
    var twice := Synced(once, os);
    SyncConverges(links, os);
    SyncConverges(once, os);
    ReconciledAllAt(once, os);
    assert twice.Keys == once.Keys;
    forall n | n in once ensures twice[n] == once[n] {
      if n in Names(os) {
        var o :| o in os && o.name == n;
        assert twice[n] == Reconciled(once, o)[n];
      }
    }
  }

  /* ---- the commands ---- */

  lemma LastWinsStep(routes: seq<(string, string)>, i: nat)
    requires i < |routes|
    ensures LastWins(routes[..i + 1]) == LastWins(routes[..i])[routes[i].0 := routes[i].1]
  {
    assert routes[..i + 1][..i] == routes[..i];
  }

  lemma {:induction false} LastWinsKeys(routes: seq<(string, string)>)
    ensures forall s :: s in LastWins(routes) <==> exists r :: r in routes && r.0 == s
  {
    if routes != [] {
      var front, last := routes[..|routes| - 1], routes[|routes| - 1];
      assert routes == front + [last];
      LastWinsKeys(front);
    }
  }

  /** A subnet goes through the hop of its last entry. */
  lemma {:induction false} LastWinsValue(routes: seq<(string, string)>, i: nat)
    requires i < |routes| && forall j :: i < j < |routes| ==> routes[j].0 != routes[i].0
    ensures routes[i].0 in LastWins(routes) && LastWins(routes)[routes[i].0] == routes[i].1
  {
    if i < |routes| - 1 {
      var front := routes[..|routes| - 1];
      LastWinsValue(front, i);
      assert routes[|routes| - 1].0 != routes[i].0;
    }
  }

  /** Installing every route over leftovers that are all about to be overwritten. */
  lemma OverlaidRoutes(start: map<string, string>, routes: seq<(string, string)>)
    requires start.Keys <= LastWins(routes).Keys
    ensures start + LastWins(routes) == LastWins(routes)
  {
  }

  lemma Assemble(before: Links, after: Links, name: string)
    requires after - {name} == before - {name} && name in after
    ensures after == before[name := after[name]]
  {
    SameElsewhere(before, after, {name});
  }

  lemma ElsewhereWidens(before: Links, after: Links, name: string, names: set<string>)
    requires after - {name} == before - {name} && name in names
    ensures after - names == before - names
  {
    assert forall m: Links :: m - names == (m - {name}) - names;
  }

  lemma OneMoreDropped(all: set<string>, stale: set<string>, left: set<string>, p: string)
    requires p in left && left <= stale
    ensures all - (stale - left) - {p} == all - (stale - (left - {p}))
  {
  }

  /** Only addresses differ, and routes may be lost. */
  ghost predicate Readdressed(before: Link, after: Link) {
    && after == before.(addresses := after.addresses, routes := after.routes)
    && forall s :: s in after.routes ==> s in before.routes && after.routes[s] == before.routes[s]
  }

  class Node {
    var links: Links
    var tick: nat
    const fails: nat -> bool
    /** Secondary addresses and routes that the kernel drops on its own when an address goes away. */
    const casualties: nat -> (set<string>, set<string>)

    /** No command fails, and no deleted address takes another address with it. */
    ghost predicate Clean(from: nat, to: nat) {
      forall i :: from <= i < to ==> !fails(i) && casualties(i).0 == {}
    }

    constructor (l: Links, fails: nat -> bool, casualties: nat -> (set<string>, set<string>))
      ensures links == l && tick == 0 && this.fails == fails && this.casualties == casualties
    {
      links, tick := l, 0;
      this.fails, this.casualties := fails, casualties;
    }

    /** Issues one command; a failed command has no effect. */
    method Run() returns (ok: bool)
      modifies this`tick
      ensures tick == old(tick) + 1 && ok == !fails(old(tick))
    {
      ok := !fails(tick);
      tick := tick + 1;
    }

    /** A command that, when it succeeds, leaves one device as given and the others alone. */
    method Put(name: string, link: Link) returns (ok: bool)
      modifies this
      ensures tick == old(tick) + 1 && ok == !fails(old(tick)) && links - {name} == old(links) - {name}
      ensures if ok then name in links && links[name] == link else links == old(links)
    {
      ok := Run();
      if ok {
        links := links[name := link];
      }
    }

    /** delete_interface: a missing device counts as deleted. */
    method DeleteInterface(name: string) returns (ok: bool)
      modifies this
      ensures tick >= old(tick)
      ensures links == if ok then old(links) - {name} else old(links)
      ensures Clean(old(tick), tick) && ValidIfaceName(name) ==> ok
    {
      if !ValidIfaceName(name) {
        return false;
      }
      ok := Run();
      if ok {
        links := links - {name};
      }
    }

    /** Recreates the device unless its text resembles the overlay. */
    method Prepare(o: Overlay) returns (ok: bool)
      requires ValidIfaceName(o.name)
      modifies this
      ensures tick >= old(tick) && links - {o.name} == old(links) - {o.name}
      ensures ok ==> o.name in links && links[o.name].tunnel == TunnelAfter(old(links), o)
      ensures Clean(old(tick), tick) ==> ok
    {
      ok := Run();
      if ok && !(o.name in links && Resembles(links[o.name], o)) {
        ok := DeleteInterface(o.name);
        if ok {
          ok := Put(o.name, Link(Some(Fresh(o)), {}, false, {}, map[]));
        }
      }
    }

    /** Deleting an address that went away with another one fails. */
    method DropAddresses(name: string, stale: set<string>) returns (ok: bool)
      requires name in links && stale <= links[name].addresses
      modifies this
      ensures tick >= old(tick) && links - {name} == old(links) - {name} && name in links
      ensures Readdressed(old(links)[name], links[name])
      ensures ok ==> links[name].addresses <= old(links)[name].addresses - stale
      ensures Clean(old(tick), tick) ==> ok
    {
      ok := true;
      var left := stale;
      while ok && left != {}
        invariant tick >= old(tick) && links - {name} == old(links) - {name} && name in links && left <= stale
        invariant Readdressed(old(links)[name], links[name])
        invariant ok ==> links[name].addresses <= old(links)[name].addresses - (stale - left)
        invariant Clean(old(tick), tick) ==> ok && left <= links[name].addresses
        decreases |left|
      {
        var a :| a in left;
        OneMoreDropped(old(links)[name].addresses, stale, left, a);
        var now, lost := links[name], casualties(tick);
        if a in now.addresses {
          ok := Put(name, now.(addresses := now.addresses - {a} - lost.0, routes := now.routes - lost.1));
        } else {
          ok := Run();
          ok := false;
        }
        left := left - {a};
      }
    }

    method SyncAddress(name: string, cidr: string) returns (ok: bool)
      requires name in links
      modifies this
      ensures tick >= old(tick) && links - {name} == old(links) - {name} && name in links
      ensures Readdressed(old(links)[name], links[name])
      ensures ok ==> links[name].addresses == {cidr}
      ensures Clean(old(tick), tick) ==> ok
    {
      ok := Run();
      var existing := links[name].addresses;
      if ok {
        ok := DropAddresses(name, existing - {cidr});
      }
      if ok {
        assert links[name].addresses + {cidr} == {cidr};
        ok := Put(name, links[name].(addresses := links[name].addresses + {cidr}));
      }
    }

    method DropFlood(name: string, stale: set<string>) returns (ok: bool)
      requires name in links
      modifies this
      ensures tick >= old(tick) && links - {name} == old(links) - {name} && name in links
      ensures ok ==> links[name] == old(links)[name].(flood := old(links)[name].flood - stale)
      ensures Clean(old(tick), tick) ==> ok
    {
      ok := true;
      var left := stale;
      while ok && left != {}
        invariant tick >= old(tick) && links - {name} == old(links) - {name} && name in links && left <= stale
        invariant ok ==> links[name] == old(links)[name].(flood := old(links)[name].flood - (stale - left))
        invariant Clean(old(tick), tick) ==> ok
        decreases |left|
      {
        var p :| p in left;
        OneMoreDropped(old(links)[name].flood, stale, left, p);
        ok := Put(name, links[name].(flood := links[name].flood - {p}));
        left := left - {p};
      }
    }

    method AddFlood(name: string, missing: set<string>) returns (ok: bool)
      requires name in links
      modifies this
      ensures tick >= old(tick) && links - {name} == old(links) - {name} && name in links
      ensures ok ==> links[name] == old(links)[name].(flood := old(links)[name].flood + missing)
      ensures Clean(old(tick), tick) ==> ok
    {
      ok := true;
      var left := missing;
      while ok && left != {}
        invariant tick >= old(tick) && links - {name} == old(links) - {name} && name in links && left <= missing
        invariant ok ==> links[name] == old(links)[name].(flood := old(links)[name].flood + (missing - left))
        invariant Clean(old(tick), tick) ==> ok
        decreases |left|
      {
        var p :| p in left;
        assert missing - left + {p} == missing - (left - {p});
        ok := Put(name, links[name].(flood := links[name].flood + {p}));
        left := left - {p};
      }
    }

    method SyncFlood(name: string, peers: seq<string>) returns (ok: bool)
      requires name in links
      modifies this
      ensures tick >= old(tick) && links - {name} == old(links) - {name} && name in links
      ensures ok ==> links[name] == old(links)[name].(flood := Elements(peers))
      ensures Clean(old(tick), tick) ==> ok
    {
      ok := Run();
      var existing, wanted := links[name].flood, Elements(peers);
      if ok {
        ok := DropFlood(name, existing - wanted);
      }
      if ok {
        ok := AddFlood(name, wanted - existing);
      }
      assert existing - (existing - wanted) + (wanted - existing) == wanted;
    }

    /** Deletes the routes whose subnet is no longer wanted. */
    method DropRoutes(name: string, wanted: set<string>) returns (ok: bool)
      requires name in links
      modifies this
      ensures tick >= old(tick) && links - {name} == old(links) - {name} && name in links
      ensures ok ==> links[name] == old(links)[name].(routes := links[name].routes) && links[name].routes.Keys <= wanted
      ensures Clean(old(tick), tick) ==> ok
    {
      ok := Run();
      var stale := if ok then links[name].routes.Keys - wanted else {};
      while ok && stale != {}
        invariant tick >= old(tick) && links - {name} == old(links) - {name} && name in links
        invariant ok ==>
                    links[name] == old(links)[name].(routes := links[name].routes)
                      && links[name].routes.Keys <= wanted + stale
        invariant Clean(old(tick), tick) ==> ok
        decreases |stale|
      {
        var s :| s in stale;
        ok := Put(name, links[name].(routes := links[name].routes - {s}));
        stale := stale - {s};
      }
    }

    method InstallRoutes(name: string, routes: seq<(string, string)>) returns (ok: bool)
      requires name in links
      modifies this
      ensures tick >= old(tick) && links - {name} == old(links) - {name} && name in links
      ensures ok ==> links[name] == old(links)[name].(routes := old(links)[name].routes + LastWins(routes))
      ensures Clean(old(tick), tick) ==> ok
    {
      ok := true;
      for i := 0 to |routes|
        invariant tick >= old(tick) && links - {name} == old(links) - {name} && name in links
        invariant ok && links[name] == old(links)[name].(routes := old(links)[name].routes + LastWins(routes[..i]))
      {
        LastWinsStep(routes, i);
        ok := Put(name, links[name].(routes := links[name].routes[routes[i].0 := routes[i].1]));
        if !ok {
          return;
        }
      }
      assert routes[..|routes|] == routes;
    }

    method SyncRoutes(name: string, routes: seq<(string, string)>) returns (ok: bool)
      requires name in links
      modifies this
      ensures tick >= old(tick) && links - {name} == old(links) - {name} && name in links
      ensures ok ==> links[name] == old(links)[name].(routes := LastWins(routes))
      ensures Clean(old(tick), tick) ==> ok
    {
      LastWinsKeys(routes);
      ok := DropRoutes(name, set r | r in routes :: r.0);
      if ok {
        OverlaidRoutes(links[name].routes, routes);
        ok := InstallRoutes(name, routes);
      }
    }

    /** reconcile_overlay. */
    method Reconcile(o: Overlay) returns (ok: bool)
      modifies this
      ensures tick >= old(tick) && links - {o.name} == old(links) - {o.name}
      ensures ok ==> links == Reconciled(old(links), o)
      ensures ok ==> ValidIfaceName(o.name) && ValidIpv4Address(o.underlay) && ValidIpv4Cidr(o.cidr)
      ensures ok ==> forall p :: p in o.peers ==> ValidIpv4Address(p)
      ensures ok ==> forall r :: r in o.routes ==> ValidIpv4Cidr(r.0) && ValidIpv4Address(r.1)
      ensures !ValidOverlay(o) ==> !ok && links == old(links)
      ensures ValidOverlay(o) && Clean(old(tick), tick) ==> ok
    {
      if !ValidOverlay(o) {
        return false;
      }
      ok := Prepare(o);
      if ok {
        ok := SyncAddress(o.name, o.cidr);
      }
      if ok {
        ok := Put(o.name, links[o.name].(up := true));
      }
      if ok {
        ok := SyncFlood(o.name, o.peers);
      }
      if ok {
        ok := SyncRoutes(o.name, o.routes);
      }
      if ok {
        Assemble(old(links), links, o.name);
      }
    }

    method ReconcileEach(os: seq<Overlay>) returns (ok: bool)
      modifies this
      ensures tick >= old(tick) && links - Names(os) == old(links) - Names(os)
      ensures ok ==> links == ReconciledAll(old(links), os)
      ensures (forall o :: o in os ==> ValidOverlay(o)) && Clean(old(tick), tick) ==> ok
    {
      ok := true;
      for i := 0 to |os|
        invariant tick >= old(tick) && links - Names(os) == old(links) - Names(os)
        invariant ok && links == ReconciledAll(old(links), os[..i])
      {
        assert os[..i + 1][..i] == os[..i] && os[i] in os;
        ghost var before := links;
        ok := Reconcile(os[i]);
        ElsewhereWidens(before, links, os[i].name, Names(os));
        if !ok {
          return;
        }
      }
      assert os[..|os|] == os;
    }

    /** Deletes the listed devices, stopping at the first failure. */
    method DeleteEach(names: set<string>) returns (ok: bool)
      modifies this
      ensures tick >= old(tick) && links - names == old(links) - names
      ensures ok ==> links == old(links) - names
      ensures (forall n :: n in names ==> ValidIfaceName(n)) && Clean(old(tick), tick) ==> ok
    {
      ok := true;
      var left := names;
      while ok && left != {}
        invariant tick >= old(tick) && left <= names && links == old(links) - (names - left)
        invariant (forall n :: n in names ==> ValidIfaceName(n)) && Clean(old(tick), tick) ==> ok
        decreases ok, |left|
      {
        var n :| n in left;
        ok := DeleteInterface(n);
        if ok {
          assert names - left + {n} == names - (left - {n});
          left := left - {n};
        }
      }
    }

    /** Deletes the managed devices that no overlay names. */
    method DeleteStale(os: seq<Overlay>) returns (ok: bool)
      modifies this
      ensures tick >= old(tick)
      ensures ok ==> links == old(links) - Stale(old(links), os)
      ensures forall n :: !("qvx" <= n) ==>
                (n in links <==> n in old(links)) && (n in links ==> links[n] == old(links)[n])
      ensures (forall n :: n in Stale(old(links), os) ==> ValidIfaceName(n)) && Clean(old(tick), tick) ==> ok
    {
      ok := Run();
      if ok {
        var stale := set n | n in links && Managed(n) && n !in Names(os);
        assert stale == Stale(old(links), os);
        ok := DeleteEach(stale);
        SameElsewhere(old(links), links, stale);
      }
    }

    /** sync_vpc_overlays. */
    method Sync(os: seq<Overlay>) returns (ok: bool)
      modifies this
      ensures ok ==> links == Synced(old(links), os)
      ensures forall n :: n !in Names(os) && !("qvx" <= n) ==>
                (n in links <==> n in old(links)) && (n in links ==> links[n] == old(links)[n])
      ensures Acceptable(old(links), os) && Clean(old(tick), tick) ==> ok
    {
      ok := ReconcileEach(os);
      SameElsewhere(old(links), links, Names(os));
      if ok {
        ok := DeleteStale(os);
      }
    }
  }

  lemma SameElsewhere(before: Links, after: Links, names: set<string>)
    requires after - names == before - names
    ensures forall n :: n !in names ==> (n in after <==> n in before) && (n in after ==> after[n] == before[n])
  {
    forall n | n !in names ensures (n in after <==> n in before) && (n in after ==> after[n] == before[n]) {
      assert n in after <==> n in after - names;
      assert n in before <==> n in before - names;
      assert n in after ==> (after - names)[n] == after[n];
    }
  }
}
