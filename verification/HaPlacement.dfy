/** The search for a failover destination (qarax/src/ha_monitor.rs, pick_failover_host). */
module HaPlacement {
  import opened Common

  type Host = nat
  type Pool = nat

  /** The scheduler proposes some eligible host that is not excluded, and nothing only when there is none. */
  ghost predicate Proposes(pick: seq<Host> -> Option<Host>, eligible: set<Host>) {
    forall excluded ::
      match pick(excluded)
      case Some(h) => h in eligible && h !in excluded
      case None => forall h :: h in eligible ==> h in excluded
  }

  predicate HasAll(attached: set<(Host, Pool)>, h: Host, pools: seq<Pool>) {
    forall p :: p in pools ==> (h, p) in attached
  }

  method PickFailoverHost(dead: Host, pools: seq<Pool>, attached: set<(Host, Pool)>, pick: seq<Host> -> Option<Host>,
                          ghost eligible: set<Host>)
    returns (r: Option<Host>)
    requires Proposes(pick, eligible)
    ensures r.Some? ==> r.value in eligible && r.value != dead && forall p :: p in pools ==> (r.value, p) in attached
    ensures r.None? ==> forall h :: h in eligible && h != dead ==> exists p :: p in pools && (h, p) !in attached
  {
    var excluded := [dead];
    ghost var open := eligible - {dead};
    while true
      invariant dead in excluded && forall h :: h in open <==> h in eligible && h !in excluded
      invariant forall h :: h in excluded && h != dead ==> !HasAll(attached, h, pools)
      decreases open
    {
      match pick(excluded)
      case None => return None;
      case Some(candidate) =>
        var hasAllPools := true;
        for i := 0 to |pools|
          invariant hasAllPools
          invariant forall j :: 0 <= j < i ==> (candidate, pools[j]) in attached
        {
          if (candidate, pools[i]) !in attached {
            hasAllPools := false;
            break;
          }
        }
        if hasAllPools {
          return Some(candidate);
        }
        excluded := excluded + [candidate];
        open := open - {candidate};
    }
  }
}
