/** Multi-gateway routes: a startup, runtime and shutdown state machine that keeps a set of
    kernel routes in step with what it tracks. */
module Gateway {
  import opened Topology
  import opened GwSpeed
  import opened Words

  /** Costs of this value mean: no use. */
  const COSTS_MAX: int := 0x7fff_ffff_ffff_ffff

  datatype Prefix = Prefix(addr: Addr, len: nat)

  const SLASH_0: Prefix := Prefix(0, 0)

  /** The two halves that together override any default route. */
  function Half(k: nat): Prefix {
    if k == 0 then Prefix(0, 1) else Prefix(0x8000_0000, 1)
  }

  datatype Route = Route(
    table: nat, onlink: bool, linkScope: bool, ifIndex: int, gw: Option<Addr>, dst: Prefix, blackhole: bool)

  /** A tracked route; only an active one is meant to be in the kernel. */
  datatype RouteInfo = RouteInfo(active: bool, route: Route)

  const NO_ROUTE: RouteInfo := RouteInfo(false, Route(0, false, false, 0, None, SLASH_0, false))

  datatype Phase = Startup | Runtime | Shutdown

  predicate AddAllowed(p: Phase) { p.Startup? || p.Runtime? }
  predicate AddForced(p: Phase) { p.Startup? }
  predicate DelAllowed(p: Phase) { p.Runtime? || p.Shutdown? }
  predicate DelForced(p: Phase) { p.Shutdown? }
  predicate Forced(p: Phase) { p.Startup? || p.Shutdown? }

  /** The places where routes are tracked: the override pair, the route of the best egress
      link, and a network and a default route per egress interface. */
  datatype Slot = Override(k: nat) | BestEgress | Network(i: nat) | Default(i: nat)

  /** Routing tables: the main one, the one for the best egress link, one per interface. */
  datatype Config = Config(rtTable: nat, offsetTable: nat, ifTables: seq<nat>)

  ghost predicate DistinctTables(cfg: Config) {
    && cfg.rtTable != cfg.offsetTable
    && (forall i :: 0 <= i < |cfg.ifTables| ==> cfg.ifTables[i] != cfg.rtTable && cfg.ifTables[i] != cfg.offsetTable)
    && (forall i, j :: 0 <= i < j < |cfg.ifTables| ==> cfg.ifTables[i] != cfg.ifTables[j])
  }

  function IsSlot(cfg: Config, s: Slot): bool {
    match s
    case Override(k) => k < 2
    case BestEgress => true
    case Network(i) => i < |cfg.ifTables|
    case Default(i) => i < |cfg.ifTables|
  }

  /** The routes that may be tracked in a slot. */
  predicate Home(cfg: Config, s: Slot, r: Route) {
    IsSlot(cfg, s) &&
    match s
    case Override(k) => r.table == cfg.rtTable && r.dst == Half(k)
    case BestEgress => r.table == cfg.offsetTable && r.dst == SLASH_0
    case Network(i) => r.table == cfg.ifTables[i]
    case Default(i) => r.table == cfg.ifTables[i] && r.dst == SLASH_0
  }

  // ----- The kernel

  /** The kernel has one entry for a table and a destination. */
  datatype Key = Key(table: nat, dst: Prefix)

  type Kernel = map<Key, Route>

  function KeyOf(r: Route): Key {
    Key(r.table, r.dst)
  }

  /** What the kernel is given for a route: without a gateway it is not on-link, or to a single
      host the host is the gateway. */
  function Stored(r: Route): Route {
    if r.gw.Some? then r
    else if r.dst.len == 32 then r.(gw := Some(r.dst.addr))
    else r.(onlink := false)
  }

  /** olsr_new_netlink_route: an addition replaces the entry, a deletion needs a match. */
  function Netlink(kernel: Kernel, add: bool, r: Route): Kernel {
    if add then kernel[KeyOf(r) := Stored(r)]
    else if KeyOf(r) in kernel && kernel[KeyOf(r)] == Stored(r) then kernel - {KeyOf(r)}
    else kernel
  }

  function Program(kernel: Kernel, add: bool, info: RouteInfo): Kernel {
    if info.active then Netlink(kernel, add, info.route) else kernel
  }

  type Tracked = map<Slot, RouteInfo>

  ghost predicate Homed(cfg: Config, routes: Tracked) {
    forall s :: s in routes && routes[s].active ==> Home(cfg, s, routes[s].route)
  }

  ghost predicate IsLive(routes: Tracked, live: set<Slot>, s: Slot) {
    s in live && s in routes && routes[s].active
  }

  ghost predicate Present(routes: Tracked, kernel: Kernel, s: Slot) {
    s in routes && KeyOf(routes[s].route) in kernel && kernel[KeyOf(routes[s].route)] == Stored(routes[s].route)
  }

  /** Two slots are after the same kernel entry. */
  ghost predicate SameKey(routes: Tracked, s: Slot, t: Slot) {
    s in routes && t in routes && KeyOf(routes[s].route) == KeyOf(routes[t].route)
  }

  ghost predicate IsTracked(routes: Tracked, live: set<Slot>, k: Key, r: Route) {
    exists s :: IsLive(routes, live, s) && KeyOf(routes[s].route) == k && Stored(routes[s].route) == r
  }

  /** The kernel holds no route that is not tracked as active. */
  ghost predicate Sound(routes: Tracked, kernel: Kernel, live: set<Slot>) {
    forall k :: k in kernel ==> IsTracked(routes, live, k, kernel[k])
  }

  /** The network route of an interface leads everywhere, so that it and the default route of
      the interface are after the same kernel entry. */
  ghost predicate Shares(routes: Tracked, live: set<Slot>, i: nat) {
    IsLive(routes, live, Network(i)) && IsLive(routes, live, Default(i)) && routes[Network(i)].route.dst == SLASH_0
  }

  predicate OfInterface(s: Slot, i: nat) {
    s == Network(i) || s == Default(i)
  }

  predicate LostTo(displaced: set<nat>, s: Slot) {
    (s.Network? || s.Default?) && s.i in displaced
  }

  /** All active routes are in the kernel, apart from interfaces whose two routes shared an
      entry at some time. */
  ghost predicate Intact(routes: Tracked, kernel: Kernel, live: set<Slot>, displaced: set<nat>) {
    && (forall s :: IsLive(routes, live, s) && !LostTo(displaced, s) ==> Present(routes, kernel, s))
    && (forall i :: Shares(routes, live, i) ==> i in displaced)
  }

  /** The kernel holds exactly the active tracked routes, an entry for each. */
  ghost predicate Mirrors(routes: Tracked, kernel: Kernel, live: set<Slot>) {
    && Sound(routes, kernel, live)
    && (forall s :: IsLive(routes, live, s) ==> Present(routes, kernel, s))
    && (forall s, t :: IsLive(routes, live, s) && IsLive(routes, live, t) && SameKey(routes, s, t) ==> s == t)
  }

  /** Only the two routes of an interface can be after the same entry. */
  lemma KeysDiffer(cfg: Config, routes: Tracked, live: set<Slot>, s: Slot, t: Slot)
    requires DistinctTables(cfg) && Homed(cfg, routes) && IsLive(routes, live, s) && IsLive(routes, live, t) && s != t
    requires KeyOf(routes[s].route) == KeyOf(routes[t].route)
    ensures (s.Network? || s.Default?) && OfInterface(t, s.i) && Shares(routes, live, s.i)
  {
    assert Home(cfg, s, routes[s].route) && Home(cfg, t, routes[t].route);
  }

  /** Without displaced interfaces the mirror is exact. */
  lemma IntactMirrors(cfg: Config, routes: Tracked, kernel: Kernel, live: set<Slot>)
    requires DistinctTables(cfg) && Homed(cfg, routes) && Sound(routes, kernel, live) &&
      Intact(routes, kernel, live, {})
    ensures Mirrors(routes, kernel, live)
  {
    forall s, t | IsLive(routes, live, s) && IsLive(routes, live, t) && SameKey(routes, s, t)
      ensures s == t
    {
      if s != t {
        KeysDiffer(cfg, routes, live, s, t);
      }
    }
  }

  /** Where the two routes of an interface share an entry there is no exact mirror; if the
      kernel tells them apart one of them is not in it. */
  lemma SharedIsNoMirror(routes: Tracked, kernel: Kernel, live: set<Slot>, i: nat)
    requires Shares(routes, live, i) && routes[Default(i)].route.dst == SLASH_0
    requires routes[Default(i)].route.table == routes[Network(i)].route.table
    ensures !Mirrors(routes, kernel, live)
    ensures Stored(routes[Network(i)].route) != Stored(routes[Default(i)].route) ==>
      !Present(routes, kernel, Network(i)) || !Present(routes, kernel, Default(i))
  {
  }

  /** What the kernel is told when a slot goes from `prev` to `cur`. */
  function Reprogram(kernel: Kernel, prev: RouteInfo, cur: RouteInfo, p: Phase): Kernel {
    var changed := prev.active != cur.active || prev.route != cur.route;
    var k := if (changed || DelForced(p)) && DelAllowed(p) then Program(kernel, false, prev) else kernel;
    if (changed || AddForced(p)) && AddAllowed(p) then Program(k, true, cur) else k
  }

  /** The slots that are still looked after once slot s was reprogrammed. */
  function Live(live: set<Slot>, s: Slot, p: Phase): set<Slot> {
    if p.Shutdown? then live - {s} else live
  }

  /** The interfaces that share an entry now are displaced from now on. */
  ghost function Displace(displaced: set<nat>, routes: Tracked, live: set<Slot>, s: Slot): set<nat> {
    if (s.Network? || s.Default?) && Shares(routes, live, s.i) then displaced + {s.i} else displaced
  }

  ghost function DisplaceIf(looked: bool, displaced: set<nat>, routes: Tracked, live: set<Slot>, s: Slot): set<nat> {
    if looked then Displace(displaced, routes, live, s) else displaced
  }

  /** Reprogramming a slot leaves nothing untracked in the kernel; at startup the slot must not
      have been active before, at shutdown it is given up. */
  lemma ReprogramSound(routes: Tracked, kernel: Kernel, live: set<Slot>, s: Slot, cur: RouteInfo, p: Phase)
    requires Sound(routes, kernel, live) && s in live && s in routes && (p.Startup? ==> !routes[s].active)
    ensures Sound(routes[s := cur], Reprogram(kernel, routes[s], cur, p), Live(live, s, p))
  {
    var prev, routes', kernel', live' :=
      routes[s], routes[s := cur], Reprogram(kernel, routes[s], cur, p), Live(live, s, p);
    forall k | k in kernel'
      ensures IsTracked(routes', live', k, kernel'[k])
    {
      if !p.Shutdown? && cur.active && k == KeyOf(cur.route) && kernel'[k] == Stored(cur.route) {
        assert IsLive(routes', live', s);
      } else {
        assert k in kernel && kernel'[k] == kernel[k] && IsTracked(routes, live, k, kernel[k]);
        var t :| IsLive(routes, live, t) && KeyOf(routes[t].route) == k && Stored(routes[t].route) == kernel[k];
        assert t != s;
        assert IsLive(routes', live', t);
      }
    }
  }

  /** Reprogramming a slot keeps all other active routes in the kernel, and puts it there. */
  lemma ReprogramIntact(cfg: Config, routes: Tracked, kernel: Kernel, live: set<Slot>, displaced: set<nat>, s: Slot,
      cur: RouteInfo, p: Phase)
    requires DistinctTables(cfg) && Homed(cfg, routes) && Intact(routes, kernel, live, displaced) && s in live &&
      s in routes
    requires (cur.active ==> Home(cfg, s, cur.route)) && (p.Startup? ==> !routes[s].active)
    ensures Homed(cfg, routes[s := cur])
    ensures var routes', live' := routes[s := cur], Live(live, s, p);
      Intact(routes', Reprogram(kernel, routes[s], cur, p), live', Displace(displaced, routes', live', s))
  {
    var prev, routes', kernel', live' :=
      routes[s], routes[s := cur], Reprogram(kernel, routes[s], cur, p), Live(live, s, p);
    var displaced' := Displace(displaced, routes', live', s);
    forall t | IsLive(routes', live', t) && !LostTo(displaced', t)
      ensures Present(routes', kernel', t)
    {
      assert t != s ==> IsLive(routes, live, t);
      if t != s && prev.active && KeyOf(prev.route) == KeyOf(routes[t].route) {
        KeysDiffer(cfg, routes, live, s, t);
      }
      if t != s && cur.active && !p.Shutdown? && KeyOf(cur.route) == KeyOf(routes[t].route) {
        KeysDiffer(cfg, routes', live', s, t);
      }
    }
    forall i | Shares(routes', live', i)
      ensures i in displaced'
    {
      assert !OfInterface(s, i) ==> Shares(routes, live, i);
    }
  }

  // ----- Egress interfaces

  /** What is measured and configured about an egress interface, and the flags of what
      changed since the last call. */
  datatype Egress = Egress(
    ifIndex: int, up: bool, costs: int, network: Option<Prefix>, gateway: Option<Addr>,
    upChanged: bool, bwChanged: bool, networkChanged: bool, gatewayChanged: bool)

  /** determineEgressLinkRoute: a blackhole without an interface, else a route through it. */
  function EgressRoute(isNetwork: bool, ifIndex: int, gw: Option<Addr>, dst: Prefix, table: nat): RouteInfo {
    if ifIndex <= 0 then RouteInfo(true, Route(table, true, false, 0, None, dst, true))
    else if gw == None then RouteInfo(true, Route(table, !isNetwork, true, ifIndex, None, dst, false))
    else RouteInfo(true, Route(table, false, false, ifIndex, gw, dst, false))
  }

  function NetworkRoute(e: Egress, table: nat): RouteInfo {
    if e.network == None || !e.up || e.costs == COSTS_MAX then NO_ROUTE
    else EgressRoute(true, e.ifIndex, None, e.network.value, table)
  }

  function DefaultRoute(e: Egress, table: nat): RouteInfo {
    if !e.up || e.costs == COSTS_MAX then NO_ROUTE
    else EgressRoute(false, e.ifIndex, e.gateway, SLASH_0, table)
  }

  /** An interface that is up and usable has a route to its network, if it declares one, and a
      default route through its gateway; any other has none. */
  lemma InterfaceRoutes(e: Egress, table: nat)
    requires e.ifIndex > 0
    ensures var net, usable := NetworkRoute(e, table), e.up && e.costs != COSTS_MAX;
      && (net.active <==> usable && e.network.Some?)
      && (net.active ==> net.route.table == table && net.route.dst == e.network.value && net.route.ifIndex == e.ifIndex
                         && net.route.gw == None && !net.route.blackhole)
    ensures var def, usable := DefaultRoute(e, table), e.up && e.costs != COSTS_MAX;
      && (def.active <==> usable)
      && (def.active ==> def.route.table == table && def.route.dst == SLASH_0 && def.route.ifIndex == e.ifIndex
                         && def.route.gw == e.gateway && !def.route.blackhole)
  {
  }

  function BestEgressRoute(e: Option<Egress>, table: nat): RouteInfo {
    if e == None then EgressRoute(false, 0, None, SLASH_0, table)
    else EgressRoute(false, e.value.ifIndex, e.value.gateway, SLASH_0, table)
  }

  /** The override routes through an interface; without one they keep their contents and
      become inactive. */
  function OverrideRoute(prev: RouteInfo, ifIndex: int, gw: Option<Addr>, table: nat, k: nat): RouteInfo {
    if ifIndex == 0 then prev.(active := false)
    else RouteInfo(true, Route(table, false, gw == None, ifIndex, gw, Half(k), false))
  }

  // ----- The choice of the best egress interface

  /** Interface b is up, usable, and no other interface that is up is cheaper; among equals
      the first declared one wins. */
  ghost predicate IsBest(ifs: seq<Egress>, b: nat) {
    && b < |ifs| && ifs[b].up && ifs[b].costs < COSTS_MAX
    && forall i :: 0 <= i < |ifs| && ifs[i].up ==>
      ifs[b].costs <= ifs[i].costs && (i < b ==> ifs[b].costs < ifs[i].costs)
  }

  ghost predicate NoneUsable(ifs: seq<Egress>) {
    forall i :: 0 <= i < |ifs| && ifs[i].up ==> ifs[i].costs >= COSTS_MAX
  }

  /** The configured weights of gw_costs_weigh: three bytes and a 32-bit divider. */
  datatype Weights = Weights(exitU: nat, exitD: nat, etx: nat, divider: nat)

  /** gw_costs_weigh */
  function Weigh(up: bool, w: Weights, pathCost: nat, exitUk: nat, exitDk: nat): int {
    if !up then COSTS_MAX
    else if w.divider == 0 then pathCost * 0x8000_0000
    else if exitUk == 0 || exitDk == 0 then COSTS_MAX
    else if exitUk >= MAX_SMARTGW_SPEED && exitDk >= MAX_SMARTGW_SPEED then pathCost
    else
      Part(0x80_0000 * (1000 * w.exitU), exitUk) + Part(0x80_0000 * (1000 * w.exitD), exitDk) +
      Part(0x80_0000 * Word(w.etx * pathCost), w.divider)
  }

  function Part(n: nat, d: nat): (q: nat)
    requires d > 0
    ensures q <= n
  {
    QuotientShrinks(n, 1, d);
    n / d
  }

  /** A product of 32-bit numbers in C. */
  function Word(n: nat): (r: nat)
    ensures r < 0x1_0000_0000
  {
    n % 0x1_0000_0000
  }

  /** Costs are never above the maximum, and at the maximum exactly for an interface that is
      down or has no bandwidth where bandwidth counts. */
  lemma WeighRange(up: bool, w: Weights, pathCost: nat, exitUk: nat, exitDk: nat)
    requires w.exitU < 256 && w.exitD < 256 && pathCost < 0x1_0000_0000
    ensures 0 <= Weigh(up, w, pathCost, exitUk, exitDk) <= COSTS_MAX
    ensures Weigh(up, w, pathCost, exitUk, exitDk) == COSTS_MAX <==>
      !up || (w.divider != 0 && (exitUk == 0 || exitDk == 0))
  {
    hide Part, Word;
  }

  /** Neither bandwidth is zero, and not both are the maximum. */
  predicate Weighs(w: Weights, exitUk: nat, exitDk: nat) {
    w.divider != 0 && exitUk > 0 && exitDk > 0 && (exitUk < MAX_SMARTGW_SPEED || exitDk < MAX_SMARTGW_SPEED)
  }

  /** More bandwidth never costs more, and a lesser path cost neither. */
  lemma WeighShrinks(w: Weights, pathCost: nat, exitUk: nat, exitDk: nat, pathCost': nat, exitUk': nat, exitDk': nat)
    requires Weighs(w, exitUk, exitDk) && Weighs(w, exitUk', exitDk')
    requires exitUk <= exitUk' && exitDk <= exitDk' && pathCost' <= pathCost && w.etx * pathCost < 0x1_0000_0000
    ensures Weigh(true, w, pathCost', exitUk', exitDk') <= Weigh(true, w, pathCost, exitUk, exitDk)
  {
    QuotientShrinks(0x80_0000 * (1000 * w.exitU), exitUk, exitUk');
    QuotientShrinks(0x80_0000 * (1000 * w.exitD), exitDk, exitDk');
    ProductsGrow(pathCost', pathCost, w.etx);
    NoOverflow(w.etx * pathCost);
    NoOverflow(w.etx * pathCost');
    QuotientGrows(0x80_0000 * (w.etx * pathCost'), 0x80_0000 * (w.etx * pathCost), w.divider);
    hide Word;
  }

  lemma NoOverflow(n: nat)
    requires n < 0x1_0000_0000
    ensures Word(n) == n
  {
  }

  lemma QuotientGrows(a: nat, b: nat, d: nat)
    requires a <= b && d > 0
    ensures a / d <= b / d
  {
    QuotientBounds(a, d);
    QuotientBounds(b, d);
    FactorBound(a / d, b / d, d);
  }

  /** A direction without weight does not count, and each direction counts by its own weight. */
  lemma WeightsCount(w: Weights, pathCost: nat, exitUk: nat, exitDk: nat, other: nat)
    requires Weighs(w, exitUk, exitDk)
    ensures w.exitU == 0 && Weighs(w, other, exitDk) ==>
      Weigh(true, w, pathCost, exitUk, exitDk) == Weigh(true, w, pathCost, other, exitDk)
    ensures w.exitD == 0 && Weighs(w, exitUk, other) ==>
      Weigh(true, w, pathCost, exitUk, exitDk) == Weigh(true, w, pathCost, exitUk, other)
  {
    NothingParts(exitUk);
    NothingParts(exitDk);
    if other > 0 {
      NothingParts(other);
    }
    hide Part, Word;
  }

  lemma NothingParts(d: nat)
    requires d > 0
    ensures Part(0, d) == 0 && 0x80_0000 * (1000 * 0) == 0
  {
  }

  /** What gw_costs_weigh makes sure of: no costs above the maximum, and an interface that is
      down costs the maximum. */
  ghost predicate Weighed(ifs: seq<Egress>) {
    forall i :: 0 <= i < |ifs| ==> ifs[i].costs <= COSTS_MAX && (!ifs[i].up ==> ifs[i].costs == COSTS_MAX)
  }

  /** The loop of determineBestEgressLink finds the best interface whenever one can be used. */
  method ChooseEgress(ifs: seq<Egress>) returns (r: Option<nat>)
    requires Weighed(ifs)
    ensures if r.Some? then IsBest(ifs, r.value) else NoneUsable(ifs)
  {
    if ifs == [] {
      return None;
    }
    var best := 0;
    for i := 1 to |ifs|
      invariant best < i && (best == 0 || ifs[best].up)
      invariant forall j :: 0 <= j < i && ifs[j].up ==> ifs[best].costs <= ifs[j].costs
      invariant forall j :: 0 <= j < best && ifs[j].up ==> ifs[best].costs < ifs[j].costs
    {
      if ifs[i].up && ifs[i].costs < ifs[best].costs {
        best := i;
      }
    }
    if !ifs[best].up || ifs[best].costs == COSTS_MAX {
      return None;
    }
    return Some(best);
  }

  // ----- The state machine

  /** The smart gateway that was chosen by olsrd, with its tunnel interface if it has one. */
  datatype OlsrGw = OlsrGw(id: nat, costs: int, tunnel: Option<int>)

  /** The link that is best overall; `link` names an egress interface or an olsr gateway. */
  datatype Overall = Overall(valid: bool, isOlsr: bool, link: Option<nat>, tunnelIfIndex: int)

  const NO_LINK: Overall := Overall(false, false, None, 0)

  /** The best link changed, and there is one now or there was one. */
  predicate Moved(was: Overall, now: Overall) {
    was != now && (was.valid || now.valid)
  }

  function EgressCosts(ifs: seq<Egress>, egress: Option<nat>): int
    requires egress.Some? ==> egress.value < |ifs|
  {
    if egress == None then COSTS_MAX else ifs[egress.value].costs
  }

  function OlsrCosts(gw: Option<OlsrGw>): int {
    if gw == None then COSTS_MAX else gw.value.costs
  }

  /** The cheaper one of the best egress interface and the olsr gateway, the egress interface
      when they are equal; nothing at shutdown or when neither can be used. */
  ghost predicate IsBestOverall(o: Overall, ifs: seq<Egress>, egress: Option<nat>, gw: Option<OlsrGw>, p: Phase)
    requires egress.Some? ==> egress.value < |ifs|
  {
    && (o.valid <==> !p.Shutdown? && (EgressCosts(ifs, egress) < COSTS_MAX || OlsrCosts(gw) < COSTS_MAX))
    && (o.valid && !o.isOlsr ==> egress.Some? && o.link == egress && EgressCosts(ifs, egress) <= OlsrCosts(gw))
    && (o.valid && o.isOlsr ==> gw.Some? && o.link == Some(gw.value.id) && OlsrCosts(gw) < EgressCosts(ifs, egress))
    && o.tunnelIfIndex == if o.valid && o.isOlsr && gw.value.tunnel.Some? then gw.value.tunnel.value else 0
  }

  /** As many interfaces as tables, and costs as gw_costs_weigh gives them. */
  ghost predicate FairIfs(cfg: Config, ifs: seq<Egress>) {
    |ifs| == |cfg.ifTables| && Weighed(ifs)
  }

  ghost predicate AllSlots(cfg: Config, routes: Tracked) {
    forall s :: s in routes <==> IsSlot(cfg, s)
  }

  function NoRoutes(cfg: Config): (routes: Tracked)
    ensures AllSlots(cfg, routes) && forall s :: s in routes ==> !routes[s].active
  {
    map[Override(0) := NO_ROUTE, Override(1) := NO_ROUTE, BestEgress := NO_ROUTE] +
    (map i | 0 <= i < |cfg.ifTables| :: Network(i) := NO_ROUTE) +
      (map i | 0 <= i < |cfg.ifTables| :: Default(i) := NO_ROUTE)
  }

  lemma EgressRoutesAreHome(cfg: Config, ifs: seq<Egress>, i: nat)
    requires FairIfs(cfg, ifs) && i < |ifs|
    ensures var r := NetworkRoute(ifs[i], cfg.ifTables[i]); r.active ==> Home(cfg, Network(i), r.route)
    ensures var r := DefaultRoute(ifs[i], cfg.ifTables[i]); r.active ==> Home(cfg, Default(i), r.route)
    ensures NetworkRoute(ifs[i], cfg.ifTables[i]).active ==> DefaultRoute(ifs[i], cfg.ifTables[i]).active
  {
  }

  /** The interface and the gateway of the link that is best overall, 0 when there is none. */
  function Through(o: Overall, ifs: seq<Egress>, gw: Option<OlsrGw>): (int, Option<Addr>)
    requires o.valid && !o.isOlsr && o.link.Some? ==> o.link.value < |ifs|
  {
    if !o.valid then (0, None)
    else if o.isOlsr then (if gw.Some? && gw.value.tunnel.Some? then gw.value.tunnel.value else 0, None)
    else if o.link.Some? then (ifs[o.link.value].ifIndex, ifs[o.link.value].gateway)
    else (0, None)
  }

  ghost predicate OverridesAre(cfg: Config, routes: Tracked, through: (int, Option<Addr>)) {
    && Override(0) in routes && Override(1) in routes
    && (forall k :: 0 <= k < 2 ==> (routes[Override(k)].active <==> through.0 != 0))
    && (forall k :: 0 <= k < 2 && routes[Override(k)].active ==>
          routes[Override(k)].route ==
            Route(cfg.rtTable, false, through.1 == None, through.0, through.1, Half(k), false))
  }

  /** The override pair was left alone. */
  ghost predicate KeepsOverrides(was: Tracked, routes: Tracked) {
    forall k :: 0 <= k < 2 ==>
      Override(k) in was && Override(k) in routes && routes[Override(k)] == was[Override(k)]
  }

  /** The flags of what changed, cleared. */
  function Cleared(ifs: seq<Egress>): seq<Egress> {
    seq(|ifs|, i requires 0 <= i < |ifs| => ifs[i].(upChanged := false, bwChanged := false, networkChanged := false,
      gatewayChanged := false))
  }

  /** The best egress interface itself. */
  function BestOf(ifs: seq<Egress>, egress: Option<nat>): Option<Egress>
    requires egress.Some? ==> egress.value < |ifs|
  {
    if egress == None then None else Some(ifs[egress.value])
  }

  /** Interface b is flagged, so that its routes are looked at again. */
  predicate IsFlagged(ifs: seq<Egress>, egress: Option<nat>)
    requires egress.Some? ==> egress.value < |ifs|
  {
    egress.Some? && (ifs[egress.value].upChanged || ifs[egress.value].bwChanged)
  }

  /** The route for tunnel traffic leads through some egress interface, or swallows the traffic
      exactly when there is none. */
  ghost predicate IsDefault(info: RouteInfo, egress: Option<nat>, table: nat) {
    exists e: Option<Egress> :: (e == None <==> egress == None) && info == BestEgressRoute(e, table)
  }

  /** A network that leads everywhere: with a gateway the default route takes the place of the
      network route in the kernel, without one they are the same and the removal of one
      removes both. */
  lemma NetworkEverywhere(e: Egress, table: nat, kernel: Kernel)
    requires e.up && e.costs < COSTS_MAX && e.network == Some(SLASH_0) && e.ifIndex > 0
    ensures var net, def := NetworkRoute(e, table), DefaultRoute(e, table);
      var both := Program(Program(kernel, true, net), true, def);
      && KeyOf(net.route) == KeyOf(def.route) && KeyOf(net.route) in both
      && (e.gateway.Some? ==> both[KeyOf(net.route)] != Stored(net.route))
      && (e.gateway == None ==> KeyOf(def.route) !in Program(both, false, net))
  {
  }

  /** Both routes are active or none, and none without a link. */
  predicate ArePair(a: RouteInfo, b: RouteInfo, link: bool) {
    (a.active <==> b.active) && (!link ==> !a.active)
  }

  /** The routes tracked for an interface are the ones it is meant to have. */
  predicate Wanted(e: Egress, table: nat, net: RouteInfo, def: RouteInfo) {
    net == NetworkRoute(e, table) && def == DefaultRoute(e, table)
  }

  /** The routes tracked for an interface are either right or flagged as changed. */
  predicate Flagged(e: Egress, table: nat, net: RouteInfo, def: RouteInfo, p: Phase) {
    Forced(p) || ((e.networkChanged || net == NetworkRoute(e, table)) &&
      (e.gatewayChanged || def == DefaultRoute(e, table)))
  }

  function Next(changed: bool, p: Phase, prev: RouteInfo, cur: RouteInfo): RouteInfo {
    if changed || Forced(p) then cur else prev
  }

  lemma WantedIffFlagged(e: Egress, table: nat, net: RouteInfo, def: RouteInfo, p: Phase)
    ensures Flagged(e, table, net, def, p) <==>
      Wanted(e, table, Next(e.networkChanged, p, net, NetworkRoute(e, table)),
        Next(e.gatewayChanged, p, def, DefaultRoute(e, table)))
  {
  }

  /** When an interface goes up or down its routes must change; that is flagged only if
      its gateway and its network, should it have one, are reported as changed too. */
  lemma UpOrDownNeedsFlags(e: Egress, e': Egress, table: nat)
    requires e.up != e'.up && e.network == e'.network
    requires (e.up ==> e.costs < COSTS_MAX) && (e'.up ==> e'.costs < COSTS_MAX)
    ensures Flagged(e', table, NetworkRoute(e, table), DefaultRoute(e, table), Runtime) <==>
      e'.gatewayChanged && (e'.networkChanged || e.network == None)
  {
  }

  ghost predicate WantedIn(cfg: Config, ifs: seq<Egress>, routes: Tracked, i: nat) {
    && i < |ifs| && i < |cfg.ifTables| && Network(i) in routes && Default(i) in routes
    && Wanted(ifs[i], cfg.ifTables[i], routes[Network(i)], routes[Default(i)])
  }

  ghost predicate FlaggedIn(cfg: Config, ifs: seq<Egress>, routes: Tracked, i: nat, p: Phase) {
    && i < |ifs| && i < |cfg.ifTables| && Network(i) in routes && Default(i) in routes
    && Flagged(ifs[i], cfg.ifTables[i], routes[Network(i)], routes[Default(i)], p)
  }

  /** The routes of the interfaces are right afterwards exactly where they were right or flagged. */
  ghost predicate FollowFlags(cfg: Config, ifs: seq<Egress>, was: Tracked, routes: Tracked, p: Phase) {
    forall i :: 0 <= i < |ifs| ==> (WantedIn(cfg, ifs, routes, i) <==> FlaggedIn(cfg, ifs, was, i, p))
  }

  /** The routes of the interfaces were left alone. */
  ghost predicate KeepsInterfaces(was: Tracked, routes: Tracked) {
    forall s :: (s in was || s in routes) && (s.Network? || s.Default?) ==>
      s in was && s in routes && routes[s] == was[s]
  }

  /** The routes tracked for one interface: the one to its network and its default route. */
  datatype Pair = Pair(net: RouteInfo, def: RouteInfo)

  /** They follow a flag each, or the phase. */
  function NextPair(was: Pair, e: Egress, table: nat, p: Phase): Pair {
    Pair(Next(e.networkChanged, p, was.net, NetworkRoute(e, table)),
      Next(e.gatewayChanged, p, was.def, DefaultRoute(e, table)))
  }

  ghost predicate HasPair(routes: Tracked, i: nat, pair: Pair) {
    Network(i) in routes && Default(i) in routes && pair == Pair(routes[Network(i)], routes[Default(i)])
  }

  /** Interface i got its next routes. */
  ghost predicate MovesOn(cfg: Config, ifs: seq<Egress>, was: Tracked, routes: Tracked, i: nat, p: Phase) {
    && i < |ifs| && i < |cfg.ifTables| && Network(i) in was && Default(i) in was
    && HasPair(routes, i, NextPair(Pair(was[Network(i)], was[Default(i)]), ifs[i], cfg.ifTables[i], p))
  }

  ghost predicate AllMoveOn(cfg: Config, ifs: seq<Egress>, was: Tracked, routes: Tracked, p: Phase) {
    forall i :: 0 <= i < |ifs| ==> MovesOn(cfg, ifs, was, routes, i, p)
  }

  lemma MovesFrom(cfg: Config, ifs: seq<Egress>, was: Tracked, between: Tracked, routes: Tracked, i: nat, p: Phase)
    requires MovesOn(cfg, ifs, between, routes, i, p) && Network(i) in was && Default(i) in was
    requires was[Network(i)] == between[Network(i)] && was[Default(i)] == between[Default(i)]
    ensures MovesOn(cfg, ifs, was, routes, i, p)
  {
  }

  lemma MovedSlots(cfg: Config, ifs: seq<Egress>, was: Tracked, routes: Tracked, i: nat, p: Phase)
    requires MovesOn(cfg, ifs, was, routes, i, p)
    ensures Network(i) in routes && Default(i) in routes
  {
  }

  lemma MovesStay(cfg: Config, ifs: seq<Egress>, was: Tracked, between: Tracked, routes: Tracked, i: nat, p: Phase)
    requires MovesOn(cfg, ifs, was, between, i, p) && Network(i) in routes && Default(i) in routes
    requires routes[Network(i)] == between[Network(i)] && routes[Default(i)] == between[Default(i)]
    ensures MovesOn(cfg, ifs, was, routes, i, p)
  {
  }

  /** Setting both routes of an interface one after the other. */
  lemma MovesBoth(cfg: Config, ifs: seq<Egress>, was: Tracked, routes: Tracked, i: nat, p: Phase)
    requires i < |ifs| && i < |cfg.ifTables| && Network(i) in was && Default(i) in was
    requires var e, table := ifs[i], cfg.ifTables[i];
      var between := was[Network(i) := Next(e.networkChanged, p, was[Network(i)], NetworkRoute(e, table))];
      routes == between[Default(i) := Next(e.gatewayChanged, p, between[Default(i)], DefaultRoute(e, table))]
    ensures MovesOn(cfg, ifs, was, routes, i, p)
  {
  }

  lemma MovesNot(cfg: Config, ifs: seq<Egress>, routes: Tracked, i: nat, p: Phase)
    requires i < |ifs| && i < |cfg.ifTables| && Network(i) in routes && Default(i) in routes
    ensures !ifs[i].networkChanged && !ifs[i].gatewayChanged && !Forced(p) ==> MovesOn(cfg, ifs, routes, routes, i, p)
  {
  }

  lemma KeptMoveOn(cfg: Config, ifs: seq<Egress>, was: Tracked, between: Tracked, routes: Tracked, p: Phase)
    requires AllMoveOn(cfg, ifs, was, between, p) && KeepsInterfaces(between, routes)
    ensures AllMoveOn(cfg, ifs, was, routes, p)
  {
    hide NextPair;
    forall i | 0 <= i < |ifs|
      ensures MovesOn(cfg, ifs, was, routes, i, p)
    {
      assert MovesOn(cfg, ifs, was, between, i, p);
    }
  }

  lemma MoveOnFollows(cfg: Config, ifs: seq<Egress>, was: Tracked, routes: Tracked, p: Phase)
    ensures AllMoveOn(cfg, ifs, was, routes, p) ==> FollowFlags(cfg, ifs, was, routes, p)
  {
    if AllMoveOn(cfg, ifs, was, routes, p) {
      hide NetworkRoute, DefaultRoute, Wanted, Flagged, Next;
      forall i | 0 <= i < |ifs|
        ensures WantedIn(cfg, ifs, routes, i) <==> FlaggedIn(cfg, ifs, was, i, p)
      {
        assert MovesOn(cfg, ifs, was, routes, i, p);
        WantedIffFlagged(ifs[i], cfg.ifTables[i], was[Network(i)], was[Default(i)], p);
      }
    }
  }

  /** Interface i has an active network route that leads everywhere and an active default route. */
  ghost predicate SharesEntry(routes: Tracked, i: nat) {
    Shares(routes, routes.Keys, i)
  }

  /** The interfaces that were displaced before, or share an entry now. */
  ghost predicate Displaces(was: set<nat>, now: set<nat>, routes: Tracked) {
    forall i :: i in now <==> i in was || SharesEntry(routes, i)
  }

  lemma KeptShares(was: Tracked, routes: Tracked, i: nat)
    requires KeepsInterfaces(was, routes)
    ensures SharesEntry(was, i) <==> SharesEntry(routes, i)
  {
  }

  lemma KeptDisplaces(was: set<nat>, now: set<nat>, between: Tracked, routes: Tracked)
    ensures Displaces(was, now, between) && KeepsInterfaces(between, routes) ==> Displaces(was, now, routes)
  {
    if KeepsInterfaces(between, routes) {
      forall i: nat
        ensures SharesEntry(between, i) <==> SharesEntry(routes, i)
      {
        KeptShares(between, routes, i);
      }
    }
  }

  /** The best egress interface, or none at shutdown and when none can be used. */
  ghost predicate IsChosen(ifs: seq<Egress>, egress: Option<nat>, p: Phase) {
    if egress.Some? then !p.Shutdown? && IsBest(ifs, egress.value) else p.Shutdown? || NoneUsable(ifs)
  }

  /** An interface that shares an entry once its network route was set does so in the end. */
  lemma InterfaceDisplaces(i: nat, p: Phase, net: bool, def: bool,
                           r0: Tracked, l0: set<Slot>, r2: Tracked, l2: set<Slot>,
                           displaced: set<nat>, n: RouteInfo, d: RouteInfo)
    requires Network(i) in r0 && Default(i) in r0 && (n.active ==> d.active) && (Shares(r0, l0, i) ==> i in displaced)
    requires var r1 := r0[Network(i) := Next(net, p, r0[Network(i)], n)];
      r2 == r1[Default(i) := Next(def, p, r1[Default(i)], d)]
    requires var l1 := if net || Forced(p) then Live(l0, Network(i), p) else l0;
      l2 == if def || Forced(p) then Live(l1, Default(i), p) else l1
    ensures var r1 := r0[Network(i) := Next(net, p, r0[Network(i)], n)];
      var l1 := if net || Forced(p) then Live(l0, Network(i), p) else l0;
      var once := DisplaceIf(net || Forced(p), displaced, r1, l1, Network(i));
      forall j :: j in DisplaceIf(def || Forced(p), once, r2, l2, Default(i)) <==>
        j in displaced || (j == i && Shares(r2, l2, i))
  {
  }

  /** The route for tunnel traffic is programmed anew. */
  predicate Rerouted(egressChanged: bool, p: Phase, ifs: seq<Egress>, was: Option<nat>, now: Option<nat>)
    requires now.Some? ==> now.value < |ifs|
  {
    Forced(p) || (egressChanged && (now != was || IsFlagged(ifs, now)))
  }

  class MultiGateway {
    const cfg: Config
    var ifs: seq<Egress>
    var bestEgressPrevious: Option<nat>
    var bestEgress: Option<nat>
    var bestOverallPrevious: Overall
    var bestOverall: Overall
    var routes: Tracked
    var kernel: Kernel
    /** The slots that are looked after; shutdown gives them up one by one. */
    ghost var live: set<Slot>
    /** The interfaces whose routes shared a kernel entry at some time. */
    ghost var displaced: set<nat>

    ghost predicate Valid()
      reads this`routes, this`kernel, this`live, this`displaced
    {
      && DistinctTables(cfg) && AllSlots(cfg, routes)
      && Homed(cfg, routes) && Sound(routes, kernel, live) && Intact(routes, kernel, live, displaced)
    }

    /** What is known about interfaces. */
    ghost predicate Known()
      reads this`ifs, this`bestEgress, this`bestOverall
    {
      && FairIfs(cfg, ifs) && (bestEgress.Some? ==> bestEgress.value < |ifs|)
      && (bestOverall.valid && !bestOverall.isOlsr && bestOverall.link.Some? ==> bestOverall.link.value < |ifs|)
    }

    /** Between calls. */
    ghost predicate InStep()
      reads this
    {
      Valid() && Known() && live == routes.Keys
    }

    /** The kernel holds exactly the active tracked routes. */
    ghost predicate Mirrored()
      reads this
    {
      Mirrors(routes, kernel, routes.Keys)
    }

    ghost predicate Inactive()
      reads this
    {
      forall s :: s in routes ==> !routes[s].active
    }

    /** Before startup nothing is tracked and nothing is in the kernel. */
    constructor (cfg: Config, ifs: seq<Egress>)
      requires DistinctTables(cfg) && FairIfs(cfg, ifs)
      ensures InStep() && Inactive() && this.cfg == cfg && this.ifs == ifs && kernel == map[] && displaced == {}
    {
      this.cfg, this.ifs := cfg, ifs;
      bestEgress, bestEgressPrevious, bestOverall, bestOverallPrevious := None, None, NO_LINK, NO_LINK;
      kernel := map[];
      routes := NoRoutes(cfg);
      live, displaced := NoRoutes(cfg).Keys, {};
    }

    /** programRoute: the flag that is written back says whether the route is in the kernel. */
    method ProgramRoute(add: bool, info: RouteInfo) returns (written: RouteInfo)
      modifies this`kernel
      ensures kernel == Program(old(kernel), add, info) && written == info.(active := info.active && add)
    {
      written := info;
      if !info.active {
        return;
      }
      kernel := Netlink(kernel, add, info.route);
      written := info.(active := add);
    }

    /** The common tail of all route updates. */
    method Update(s: Slot, cur: RouteInfo, p: Phase)
      requires Valid() && Ready(p, s) && (cur.active ==> Home(cfg, s, cur.route))
      modifies this`routes, this`kernel, this`live, this`displaced
      ensures Valid() && routes == old(routes)[s := cur] && live == Live(old(live), s, p)
      ensures displaced == Displace(old(displaced), routes, live, s)
    {
      ReprogramSound(routes, kernel, live, s, cur, p);
      ReprogramIntact(cfg, routes, kernel, live, displaced, s, cur, p);
      hide Homed, Sound, Intact, DistinctTables, Home, Program, Shares, IsSlot;
      assert AllSlots(cfg, routes[s := cur]);
      var prev := routes[s];
      routes := routes[s := cur];
      Send(s, prev, cur, p);
      live := Live(live, s, p);
      displaced := Displace(displaced, routes, live, s);
    }

    /** Tells the kernel about the change of a slot. */
    method Send(s: Slot, prev: RouteInfo, cur: RouteInfo, p: Phase)
      requires s in routes && routes[s] == cur
      modifies this`kernel, this`routes
      ensures kernel == Reprogram(old(kernel), prev, cur, p) && routes == old(routes)
    {
      var changed := prev.active != cur.active || prev.route != cur.route;
      if (changed || DelForced(p)) && DelAllowed(p) {
        var gone := ProgramRoute(false, prev);
      }
      if (changed || AddForced(p)) && AddAllowed(p) {
        var written := ProgramRoute(true, cur);
        routes := routes[s := written];
      }
    }

    /** Slot s can be updated in phase p. */
    ghost predicate Ready(p: Phase, s: Slot)
      reads this`routes, this`live
    {
      s in live && s in routes && (p.Startup? ==> !routes[s].active)
    }

    /** Slot s is as it was. */
    ghost predicate Same(was: Tracked, wasLive: set<Slot>, s: Slot)
      reads this`routes, this`live
    {
      && (s in was <==> s in routes) && (s in routes ==> routes[s] == was[s])
      && (s in wasLive <==> s in live)
    }

    ghost predicate FixedSame(was: Tracked, wasLive: set<Slot>)
      reads this`routes, this`live
    {
      Same(was, wasLive, Override(0)) && Same(was, wasLive, Override(1)) && Same(was, wasLive, BestEgress)
    }

    /** One route of an interface. */
    method ConfigureRoute(p: Phase, s: Slot, cur: RouteInfo, changed: bool)
      requires Valid() && Ready(p, s) && (cur.active ==> Home(cfg, s, cur.route))
      modifies this`routes, this`kernel, this`live, this`displaced
      ensures Valid() && live == (if changed || Forced(p) then Live(old(live), s, p) else old(live))
      ensures routes == old(routes)[s := Next(changed, p, old(routes)[s], cur)]
      ensures displaced == DisplaceIf(changed || Forced(p), old(displaced), routes, live, s)
    {
      hide Home, Valid;
      if changed || Forced(p) {
        Update(s, cur, p);
      }
    }

    /** The two routes of one interface. */
    method ConfigureInterface(p: Phase, i: nat)
      requires Valid() && FairIfs(cfg, ifs) && i < |ifs| && Ready(p, Network(i)) && Ready(p, Default(i))
      modifies this`routes, this`kernel, this`live, this`displaced
      ensures Valid() && forall s :: !OfInterface(s, i) ==> Same(old(routes), old(live), s)
      ensures if p.Shutdown? then Network(i) !in live && Default(i) !in live else live == old(live)
      ensures Network(i) in routes && Default(i) in routes
      ensures MovesOn(cfg, ifs, old(routes), routes, i, p)
      ensures forall j :: j in displaced <==> j in old(displaced) || (j == i && Shares(routes, live, i))
    {
      MovesNot(cfg, ifs, routes, i, p);
      hide Home, Valid, NetworkRoute, DefaultRoute, Shares, DisplaceIf, MovesOn;
      SharesDisplaced(i);
      EgressRoutesAreHome(cfg, ifs, i);
      var e, table := ifs[i], cfg.ifTables[i];
      if e.networkChanged || e.gatewayChanged || e.upChanged || Forced(p) {
        ConfigureRoute(p, Network(i), NetworkRoute(e, table), e.networkChanged);
        ConfigureRoute(p, Default(i), DefaultRoute(e, table), e.gatewayChanged);
        InterfaceDisplaces(i, p, e.networkChanged, e.gatewayChanged, old(routes), old(live), routes, live,
          old(displaced), NetworkRoute(e, table), DefaultRoute(e, table));
        MovesBoth(cfg, ifs, old(routes), routes, i, p);
      }
    }

    lemma SharesDisplaced(i: nat)
      requires Valid()
      ensures Shares(routes, live, i) ==> i in displaced
    {
    }

    /** configureEgressLinkRoutes */
    method ConfigureEgressLinkRoutes(p: Phase)
      requires Valid() && FairIfs(cfg, ifs) && live == routes.Keys
      requires forall i :: 0 <= i < |ifs| ==> Ready(p, Network(i)) && Ready(p, Default(i))
      modifies this`routes, this`kernel, this`live, this`displaced
      ensures Valid() && FixedSame(old(routes), old(live))
      ensures if p.Shutdown? then GivenUp() && displaced == old(displaced)
        else live == old(live) && Displaces(old(displaced), displaced, routes)
      ensures AllMoveOn(cfg, ifs, old(routes), routes, p)
    {
      hide Valid, FairIfs, MovesOn, AllSlots;
      FixedSlots();
      for i := 0 to |ifs|
        invariant Valid() && FixedSame(old(routes), old(live))
        invariant forall j :: i <= j < |ifs| ==>
          Same(old(routes), old(live), Network(j)) && Same(old(routes), old(live), Default(j))
        invariant MovedUpTo(old(routes), i, p)
        invariant if p.Shutdown? then forall j :: 0 <= j < i ==> Network(j) !in live && Default(j) !in live
          else live == old(live)
        invariant forall j: nat :: j in displaced <==> j in old(displaced) || (j < i && Shares(routes, live, j))
      {
        ghost var between := routes;
        ConfigureInterface(p, i);
        assert !OfInterface(Override(0), i) && !OfInterface(Override(1), i) && !OfInterface(BestEgress, i);
        assert forall j :: j != i ==> !OfInterface(Network(j), i) && !OfInterface(Default(j), i);
        MovesNext(old(routes), between, i, p);
      }
      InterfacesOnly();
      SameSlots(old(routes));
    }

    ghost predicate MovedUpTo(was: Tracked, i: nat, p: Phase)
      reads this`routes, this`ifs
    {
      forall j :: 0 <= j < i ==> MovesOn(cfg, ifs, was, routes, j, p)
    }

    lemma MovesNext(was: Tracked, between: Tracked, i: nat, p: Phase)
      requires (forall j :: 0 <= j < i ==> MovesOn(cfg, ifs, was, between, j, p))
      requires MovesOn(cfg, ifs, between, routes, i, p) && Network(i) in was && Default(i) in was
      requires was[Network(i)] == between[Network(i)] && was[Default(i)] == between[Default(i)]
      requires forall s :: s in between && !OfInterface(s, i) ==> s in routes && routes[s] == between[s]
      ensures MovedUpTo(was, i + 1, p)
    {
      hide NextPair;
      MovesFrom(cfg, ifs, was, between, routes, i, p);
      forall j | 0 <= j < i
        ensures MovesOn(cfg, ifs, was, routes, j, p)
      {
        assert MovesOn(cfg, ifs, was, between, j, p);
        MovedSlots(cfg, ifs, was, between, j, p);
        MovesStay(cfg, ifs, was, between, routes, j, p);
      }
    }

    lemma InterfacesOnly()
      requires Valid() && FairIfs(cfg, ifs)
      ensures forall j: nat :: Shares(routes, live, j) ==> j < |ifs|
    {
      assert forall j: nat :: Network(j) in routes ==> IsSlot(cfg, Network(j));
    }

    /** determineBestEgressLink */
    method DetermineBestEgressLink(p: Phase) returns (changed: bool)
      requires Known()
      modifies this`bestEgress, this`bestEgressPrevious
      ensures Known() && bestEgressPrevious == old(bestEgress)
      ensures IsChosen(ifs, bestEgress, p)
      ensures changed <==> bestEgress != old(bestEgress) || IsFlagged(ifs, bestEgress)
    {
      var best := None;
      if !p.Shutdown? {
        best := ChooseEgress(ifs);
      }
      bestEgressPrevious := bestEgress;
      bestEgress := best;
      changed := bestEgressPrevious != bestEgress;
      if bestEgress.Some? && (ifs[bestEgress.value].upChanged || ifs[bestEgress.value].bwChanged) {
        changed := true;
      }
    }

    /** determineBestOverallLink */
    method DetermineBestOverallLink(p: Phase, gw: Option<OlsrGw>) returns (changed: bool)
      requires Known() && OlsrCosts(gw) <= COSTS_MAX
      modifies this`bestOverall, this`bestOverallPrevious
      ensures Known() && bestOverallPrevious == old(bestOverall) && changed == (bestOverall != old(bestOverall))
      ensures IsBestOverall(bestOverall, ifs, bestEgress, gw, p)
    {
      var egressCosts := EgressCosts(ifs, bestEgress);
      var olsrCosts := OlsrCosts(gw);
      var costs := if egressCosts < olsrCosts then egressCosts else olsrCosts;
      bestOverallPrevious := bestOverall;
      if costs == COSTS_MAX || p.Shutdown? {
        bestOverall := NO_LINK;
      } else if egressCosts <= olsrCosts {
        bestOverall := Overall(bestEgress.Some?, false, bestEgress, 0);
      } else {
        assert gw.Some?;
        var tunnel := gw.value.tunnel;
        bestOverall := Overall(true, true, Some(gw.value.id), if tunnel == None then 0 else tunnel.value);
      }
      changed := bestOverall != bestOverallPrevious;
    }

    /** setupDefaultGatewayOverrideRoutes */
    method SetupOverrideRoutes(p: Phase, gw: Option<OlsrGw>)
      requires Valid() && Known() && Ready(p, Override(0)) && Ready(p, Override(1))
      modifies this`routes, this`kernel, this`live, this`displaced
      ensures Valid() && Same(old(routes), old(live), BestEgress) && live <= old(live) &&
        KeepsInterfaces(old(routes), routes)
      ensures (if p.Shutdown? then Override(0) !in live && Override(1) !in live else live == old(live)) &&
        displaced == old(displaced)
      ensures Override(0) in routes && Override(1) in routes
      ensures bestOverallPrevious.valid || bestOverall.valid || Forced(p) ==> OverridesGo(Through(bestOverall, ifs, gw))
      ensures !bestOverallPrevious.valid && !bestOverall.valid && !Forced(p) ==> routes == old(routes)
    {
      hide Valid;
      if !bestOverallPrevious.valid && !bestOverall.valid && !Forced(p) {
        return;
      }
      var ifIndex, via := 0, None;
      if bestOverall.valid && !bestOverall.isOlsr {
        if bestOverall.link.Some? {
          ifIndex, via := ifs[bestOverall.link.value].ifIndex, ifs[bestOverall.link.value].gateway;
        }
      } else if bestOverall.valid {
        if gw.Some? && gw.value.tunnel.Some? {
          ifIndex := gw.value.tunnel.value;
        }
      }
      UpdateOverrides(p, ifIndex, via);
    }

    /** The override pair goes through the given interface, or is inactive without one. */
    ghost predicate OverridesGo(through: (int, Option<Addr>))
      reads this`routes
    {
      OverridesAre(cfg, routes, through)
    }

    method UpdateOverrides(p: Phase, ifIndex: int, via: Option<Addr>)
      requires Valid() && Ready(p, Override(0)) && Ready(p, Override(1))
      modifies this`routes, this`kernel, this`live, this`displaced
      ensures Valid() && Same(old(routes), old(live), BestEgress) && live <= old(live) &&
        KeepsInterfaces(old(routes), routes)
      ensures (if p.Shutdown? then Override(0) !in live && Override(1) !in live else live == old(live)) &&
        displaced == old(displaced)
      ensures OverridesGo((ifIndex, via))
    {
      hide Valid;
      Update(Override(0), OverrideRoute(routes[Override(0)], ifIndex, via, cfg.rtTable, 0), p);
      Update(Override(1), OverrideRoute(routes[Override(1)], ifIndex, via, cfg.rtTable, 1), p);
    }

    /** configureBestEgressLinkRoute */
    method ConfigureBestEgressLinkRoute(p: Phase)
      requires Valid() && Known() && Ready(p, BestEgress)
      modifies this`routes, this`kernel, this`live, this`displaced
      ensures Valid() && Same(old(routes), old(live), Override(0)) && Same(old(routes), old(live), Override(1))
      ensures live == Live(old(live), BestEgress, p) && BestEgress in routes && KeepsInterfaces(old(routes), routes) &&
        displaced == old(displaced)
      ensures if bestEgressPrevious.Some? || bestEgress.Some? || Forced(p)
        then routes[BestEgress] == BestEgressRoute(BestOf(ifs, bestEgress), cfg.offsetTable) else routes == old(routes)
    {
      hide Valid;
      if bestEgressPrevious == None && bestEgress == None && !Forced(p) {
        assert live == Live(old(live), BestEgress, p);
        return;
      }
      var e := if bestEgress == None then None else Some(ifs[bestEgress.value]);
      Update(BestEgress, BestEgressRoute(e, cfg.offsetTable), p);
    }

    /** There is a route for tunnel traffic, which swallows it exactly when there is no best
        egress interface. */
    ghost predicate DefaultGoes(egress: Option<nat>)
      reads this`routes
    {
      BestEgress in routes && IsDefault(routes[BestEgress], egress, cfg.offsetTable)
    }

    /** The override pair comes and goes together and only with a link. */
    ghost predicate Paired()
      reads this`routes, this`bestOverall
    {
      Override(0) in routes && Override(1) in routes &&
        ArePair(routes[Override(0)], routes[Override(1)], bestOverall.valid)
    }

    /** What holds between calls at runtime. */
    ghost predicate Guarded()
      reads this`routes, this`bestOverall, this`bestEgress
    {
      DefaultGoes(bestEgress) && Paired()
    }

    lemma FixedSlots()
      requires Valid()
      ensures AllSlots(cfg, routes) && Override(0) in routes && Override(1) in routes && BestEgress in routes
    {
      assert IsSlot(cfg, Override(0)) && IsSlot(cfg, Override(1)) && IsSlot(cfg, BestEgress);
    }

    /** The slots of all interfaces were given up. */
    ghost predicate GivenUp()
      reads this`ifs, this`live
    {
      forall i :: 0 <= i < |ifs| ==> Network(i) !in live && Default(i) !in live
    }

    /** When every slot was given up the kernel holds nothing. */
    lemma NothingLeft()
      requires Valid() && FairIfs(cfg, ifs)
      ensures GivenUp() && Override(0) !in live && Override(1) !in live && BestEgress !in live ==> kernel == map[]
    {
      assert forall s :: IsLive(routes, live, s) ==> IsSlot(cfg, s);
      assert forall k :: k in kernel ==> IsTracked(routes, live, k, kernel[k]);
    }

    lemma InterfaceSlots()
      requires Valid() && FairIfs(cfg, ifs)
      ensures forall i :: 0 <= i < |ifs| ==> Network(i) in routes && Default(i) in routes
    {
      assert forall i :: 0 <= i < |ifs| ==> IsSlot(cfg, Network(i)) && IsSlot(cfg, Default(i));
    }

    /** The slots never change. */
    lemma SameSlots(before: Tracked)
      requires Valid() && AllSlots(cfg, before)
      ensures routes.Keys == before.Keys
    {
    }

    /** Without a change of displaced interfaces none shares an entry that was not displaced. */
    lemma NothingNew()
      requires Valid()
      ensures live == routes.Keys ==> Displaces(displaced, displaced, routes)
    {
    }

    lemma ClearedIsKnown()
      requires Known()
      ensures FairIfs(cfg, Cleared(ifs)) && |Cleared(ifs)| == |ifs|
    {
    }

    /** The egress part of doRoutesMultiGw. */
    method EgressChanges(p: Phase) returns (changed: bool)
      requires InStep() && (p.Startup? ==> Inactive())
      modifies this`routes, this`kernel, this`live, this`displaced, this`bestEgress, this`bestEgressPrevious
      ensures Valid() && Known() && FixedSame(old(routes), old(live)) && IsChosen(ifs, bestEgress, p)
      ensures bestEgressPrevious == old(bestEgress) &&
        (changed <==> bestEgress != old(bestEgress) || IsFlagged(ifs, bestEgress))
      ensures if p.Shutdown? then GivenUp() && displaced == old(displaced)
        else live == routes.Keys && Displaces(old(displaced), displaced, routes)
      ensures AllMoveOn(cfg, ifs, old(routes), routes, p) && routes.Keys == old(routes).Keys
    {
      hide Valid, FairIfs, IsBest, NoneUsable, AllMoveOn, Displaces;
      changed := DetermineBestEgressLink(p);
      FixedSlots();
      InterfaceSlots();
      ConfigureEgressLinkRoutes(p);
      SameSlots(old(routes));
    }

    /** The override part of doRoutesMultiGw. */
    method OverallChanges(p: Phase, gw: Option<OlsrGw>, olsrChanged: bool, bestEgressChanged: bool)
      requires Valid() && Known() && OlsrCosts(gw) <= COSTS_MAX
      requires Ready(p, Override(0)) && Ready(p, Override(1)) && (p.Runtime? ==> Paired())
      modifies this`routes, this`kernel, this`live, this`displaced, this`bestOverall, this`bestOverallPrevious
      ensures Valid() && Known() && Paired() && Same(old(routes), old(live), BestEgress) && live <= old(live)
      ensures KeepsInterfaces(old(routes), routes) && displaced == old(displaced)
      ensures Moved(old(bestOverall), bestOverall) || Forced(p) ==> OverridesGo(Through(bestOverall, ifs, gw))
      ensures !Moved(old(bestOverall), bestOverall) && !Forced(p) ==> routes == old(routes)
      ensures if p.Shutdown? then Override(0) !in live && Override(1) !in live else live == old(live)
      ensures olsrChanged || bestEgressChanged || Forced(p) ==> IsBestOverall(bestOverall, ifs, bestEgress, gw, p)
    {
      hide Valid, FairIfs, IsBestOverall;
      var changed := false;
      if olsrChanged || bestEgressChanged || Forced(p) {
        changed := DetermineBestOverallLink(p, gw);
      }
      if changed || Forced(p) {
        SetupOverrideRoutes(p, gw);
      }
    }

    /** The last part of doRoutesMultiGw. */
    method DefaultChanges(p: Phase, bestEgressChanged: bool)
      requires Valid() && Known() && Ready(p, BestEgress)
      requires bestEgressChanged ==> bestEgressPrevious.Some? || bestEgress.Some?
      modifies this`routes, this`kernel, this`live, this`displaced
      ensures Valid() && KeepsInterfaces(old(routes), routes) && displaced == old(displaced)
      ensures BestEgress in routes && routes[BestEgress] ==
        if bestEgressChanged || Forced(p) then BestEgressRoute(BestOf(ifs, bestEgress), cfg.offsetTable)
          else old(routes)[BestEgress]
      ensures Same(old(routes), old(live), Override(0)) && Same(old(routes), old(live), Override(1))
      ensures live == if bestEgressChanged || Forced(p) then Live(old(live), BestEgress, p) else old(live)
    {
      hide Valid, FairIfs, BestEgressRoute;
      if bestEgressChanged || Forced(p) {
        ConfigureBestEgressLinkRoute(p);
      }
    }

    /** Everything after the egress part of doRoutesMultiGw. */
    method LinkChanges(p: Phase, gw: Option<OlsrGw>, olsrChanged: bool, bestEgressChanged: bool)
      requires Valid() && Known() && OlsrCosts(gw) <= COSTS_MAX
      requires Ready(p, Override(0)) && Ready(p, Override(1)) && Ready(p, BestEgress) && (p.Runtime? ==> Paired())
      requires bestEgressChanged ==> bestEgressPrevious.Some? || bestEgress.Some?
      modifies this`routes, this`kernel, this`live, this`displaced, this`bestOverall, this`bestOverallPrevious
      ensures Valid() && Known() && Paired() && live <= old(live) && KeepsInterfaces(old(routes), routes) &&
        displaced == old(displaced)
      ensures BestEgress in routes && routes[BestEgress] ==
        if bestEgressChanged || Forced(p) then BestEgressRoute(BestOf(ifs, bestEgress), cfg.offsetTable)
          else old(routes)[BestEgress]
      ensures if p.Shutdown? then Override(0) !in live && Override(1) !in live && BestEgress !in live
        else live == old(live)
      ensures olsrChanged || bestEgressChanged || Forced(p) ==> IsBestOverall(bestOverall, ifs, bestEgress, gw, p)
      ensures Moved(old(bestOverall), bestOverall) || Forced(p) ==> OverridesGo(Through(bestOverall, ifs, gw))
      ensures !Moved(old(bestOverall), bestOverall) && !Forced(p) ==> KeepsOverrides(old(routes), routes)
    {
      hide Valid, FairIfs, IsBestOverall, ArePair, Through, BestEgressRoute;
      OverallChanges(p, gw, olsrChanged, bestEgressChanged);
      DefaultChanges(p, bestEgressChanged);
    }

    /** The work of doRoutesMultiGw when there is any. */
    method ApplyChanges(egressChanged: bool, olsrChanged: bool, p: Phase, gw: Option<OlsrGw>)
      requires InStep() && OlsrCosts(gw) <= COSTS_MAX
      requires (p.Startup? ==> Inactive()) && (p.Runtime? ==> Paired())
      modifies this`routes, this`kernel, this`live, this`displaced
      modifies this`bestEgress, this`bestEgressPrevious, this`bestOverall, this`bestOverallPrevious
      ensures Known() && (if p.Shutdown? then kernel == map[]
        else InStep() && Paired() && Displaces(old(displaced), displaced, routes))
      ensures egressChanged || Forced(p) ==> IsChosen(ifs, bestEgress, p) && AllMoveOn(cfg, ifs, old(routes), routes, p)
      ensures !egressChanged && !Forced(p) ==> bestEgress == old(bestEgress) && KeepsInterfaces(old(routes), routes)
      ensures olsrChanged || Rerouted(egressChanged, p, ifs, old(bestEgress), bestEgress) ==>
        IsBestOverall(bestOverall, ifs, bestEgress, gw, p)
      ensures Moved(old(bestOverall), bestOverall) || Forced(p) ==> OverridesGo(Through(bestOverall, ifs, gw))
      ensures !Moved(old(bestOverall), bestOverall) && !Forced(p) ==> KeepsOverrides(old(routes), routes)
      ensures BestEgress in routes && BestEgress in old(routes) && routes[BestEgress] ==
        if Rerouted(egressChanged, p, ifs, old(bestEgress), bestEgress)
          then BestEgressRoute(BestOf(ifs, bestEgress), cfg.offsetTable)
        else old(routes)[BestEgress]
    {
      hide Valid, FairIfs, IsChosen, IsBestOverall, ArePair, AllMoveOn, KeepsInterfaces, OverridesGo, Through,
        BestEgressRoute, Displaces;
      FixedSlots();
      var bestEgressChanged := false;
      if egressChanged || Forced(p) {
        bestEgressChanged := EgressChanges(p);
      }
      ghost var between := routes;
      LinkChanges(p, gw, olsrChanged, bestEgressChanged);
      if egressChanged || Forced(p) {
        KeptMoveOn(cfg, ifs, old(routes), between, routes, p);
        KeptDisplaces(old(displaced), displaced, between, routes);
      }
      SameSlots(old(routes));
      NothingLeft();
      NothingNew();
    }

    /** doRoutesMultiGw */
    method DoRoutesMultiGw(egressChanged: bool, olsrChanged: bool, p: Phase, gw: Option<OlsrGw>)
      requires InStep() && OlsrCosts(gw) <= COSTS_MAX
      requires (p.Startup? ==> Inactive()) && (p.Runtime? ==> Guarded())
      modifies this
      ensures if p.Shutdown? then kernel == map[]
        else InStep() && Guarded() && Displaces(old(displaced), displaced, routes)
      ensures !p.Shutdown? && old(displaced) == {} ==> (Mirrored() <==> forall i: nat :: !SharesEntry(routes, i))
      ensures ifs == (if egressChanged then Cleared(old(ifs)) else old(ifs)) &&
        (bestEgress.Some? ==> bestEgress.value < old(|ifs|))
      ensures egressChanged || Forced(p) ==>
        IsChosen(old(ifs), bestEgress, p) && FollowFlags(cfg, old(ifs), old(routes), routes, p)
      ensures egressChanged || Forced(p) ==> AllMoveOn(cfg, old(ifs), old(routes), routes, p)
      ensures !egressChanged && !Forced(p) ==> bestEgress == old(bestEgress) && KeepsInterfaces(old(routes), routes)
      ensures olsrChanged || Rerouted(egressChanged, p, old(ifs), old(bestEgress), bestEgress) ==>
        IsBestOverall(bestOverall, old(ifs), bestEgress, gw, p)
      ensures OverallIn(old(ifs)) &&
        (Moved(old(bestOverall), bestOverall) || Forced(p) ==> OverridesGo(Through(bestOverall, old(ifs), gw)))
      ensures !Moved(old(bestOverall), bestOverall) && !Forced(p) ==> KeepsOverrides(old(routes), routes)
      ensures BestEgress in routes && BestEgress in old(routes) && routes[BestEgress] ==
        if Rerouted(egressChanged, p, old(ifs), old(bestEgress), bestEgress)
          then BestEgressRoute(BestOf(old(ifs), bestEgress), cfg.offsetTable)
        else old(routes)[BestEgress]
    {
      hide Valid, FairIfs, IsChosen, FollowFlags, AllMoveOn, IsBestOverall, OverridesGo, ArePair, Displaces, Mirrors,
        BestEgressRoute, Cleared;
      FixedSlots();
      NothingNew();
      if egressChanged || olsrChanged || Forced(p) {
        ApplyChanges(egressChanged, olsrChanged, p, gw);
      }
      MoveOnFollows(cfg, ifs, old(routes), routes, p);
      MirrorIff(old(displaced));
      KeepsDefault(old(routes), old(bestEgress), p);
      if egressChanged {
        ClearedIsKnown();
        ifs := Cleared(ifs);
      }
    }

    /** The link that is best overall, if an interface, is one of these. */
    ghost predicate OverallIn(ifs: seq<Egress>)
      reads this`bestOverall
    {
      bestOverall.valid && !bestOverall.isOlsr && bestOverall.link.Some? ==> bestOverall.link.value < |ifs|
    }

    lemma MirrorIff(was: set<nat>)
      ensures Valid() && live == routes.Keys && was == {} && Displaces(was, displaced, routes) ==>
        (Mirrored() <==> forall i: nat :: !SharesEntry(routes, i))
    {
      if Valid() && live == routes.Keys && was == {} && Displaces(was, displaced, routes) {
        if i: nat :| SharesEntry(routes, i) {
          assert Home(cfg, Network(i), routes[Network(i)].route) && Home(cfg, Default(i), routes[Default(i)].route);
          SharedIsNoMirror(routes, kernel, routes.Keys, i);
        } else {
          assert displaced == {};
          IntactMirrors(cfg, routes, kernel, routes.Keys);
        }
      }
    }

    lemma KeepsDefault(was: Tracked, wasBest: Option<nat>, p: Phase)
      requires BestEgress in was && (bestEgress.Some? ==> bestEgress.value < |ifs|)
      ensures var best := BestEgressRoute(BestOf(ifs, bestEgress), cfg.offsetTable);
        BestEgress in routes && routes[BestEgress] == best ==> DefaultGoes(bestEgress)
      ensures BestEgress in routes && routes[BestEgress] == was[BestEgress] && wasBest == bestEgress &&
        IsDefault(was[BestEgress], wasBest, cfg.offsetTable)
        ==> DefaultGoes(bestEgress)
    {
    }

    /** New measurements. */
    method Measure(measured: seq<Egress>)
      requires InStep() && Guarded() && FairIfs(cfg, measured)
      modifies this`ifs
      ensures InStep() && Guarded() && ifs == measured
    {
      ifs := measured;
    }

    /** The state between two calls of a run, with what was measured last. */
    ghost predicate Stands(measured: seq<Egress>, snap: Snapshot)
      reads this
    {
      && InStep() && Guarded() && ifs == Cleared(measured)
      && snap == Snapshot(bestEgress, bestOverall, snap.gw, routes, kernel)
      && Good(cfg, measured, snap)
    }

    lemma StandsGood(measured: seq<Egress>, snap: Snapshot)
      requires Stands(measured, snap)
      ensures Good(cfg, measured, snap) && forall i: nat :: SharesEntry(snap.routes, i) ==> i < |cfg.ifTables|
      ensures TracksPair(cfg, snap)
    {
      InterfacesOnly();
      HalfIsTracked(0);
      HalfIsTracked(1);
    }

    /** The call at startup. */
    method Start(gw: Option<OlsrGw>) returns (snap: Snapshot)
      requires InStep() && Inactive() && displaced == {} && OlsrCosts(gw) <= COSTS_MAX
      modifies this
      ensures Stands(old(ifs), snap) && Leads(cfg, old(ifs), snap)
      ensures Tells({}, snap) && AllMoveOn(cfg, old(ifs), old(routes), snap.routes, Startup)
      ensures OverridesAre(cfg, snap.routes, Through(snap.overall, old(ifs), gw)) && snap.gw == gw
    {
      hide Valid, FairIfs, Displaces, IsBestOverall, FollowFlags, AllMoveOn, OverridesAre, BestEgressRoute, IsBest,
        NoneUsable, ArePair, Ruled, Mirrors, SharesEntry;
      DoRoutesMultiGw(true, false, Startup, gw);
      snap := Snapshot(bestEgress, bestOverall, gw, routes, kernel);
      FixedEntries();
      NoneDisplaced({}, displaced, routes);
    }

    /** The call at shutdown. */
    method Stop(gw: Option<OlsrGw>)
      requires InStep() && OlsrCosts(gw) <= COSTS_MAX
      modifies this
      ensures kernel == map[]
    {
      DoRoutesMultiGw(true, false, Shutdown, gw);
    }

    /** A call at runtime with new measurements. */
    method HandleEgress(now: seq<Egress>, gw: Option<OlsrGw>, ghost measured: seq<Egress>, ghost was: Snapshot)
        returns (snap: Snapshot)
      requires Stands(measured, was) && FairIfs(cfg, now) && OlsrCosts(gw) <= COSTS_MAX
      modifies this
      ensures Stands(now, snap) && Tells(old(displaced), snap)
      ensures Leads(cfg, measured, was) && Truthful(measured, now) ==> Leads(cfg, now, snap)
      ensures Leads(cfg, measured, was) ==>
        (Leads(cfg, now, snap) <==> LeadsOn(cfg, measured, now, was.best, snap.best))
      ensures AllMoveOn(cfg, now, was.routes, snap.routes, Runtime)
      ensures OverrideSteps(cfg, was, now, snap) && snap.gw == gw
    {
      hide Valid, FairIfs, Displaces, IsBestOverall, FollowFlags, AllMoveOn, KeepsInterfaces, OverridesAre,
        BestEgressRoute, IsChosen, ArePair, Ruled, Mirrors, SharesEntry;
      FixedEntries();
      Measure(now);
      DoRoutesMultiGw(true, false, Runtime, gw);
      snap := Snapshot(bestEgress, bestOverall, gw, routes, kernel);
      FixedEntries();
      NoneDisplaced(old(displaced), displaced, routes);
      if !IsFlagged(now, bestEgress) && Truthful(measured, now) {
        StillLeads(measured, now, bestEgress, cfg.offsetTable);
      }
    }

    /** A call at runtime with another olsr gateway. */
    method HandleOlsr(gw: Option<OlsrGw>, ghost measured: seq<Egress>, ghost was: Snapshot) returns (snap: Snapshot)
      requires Stands(measured, was) && OlsrCosts(gw) <= COSTS_MAX
      modifies this
      ensures Stands(measured, snap) && Tells(old(displaced), snap)
      ensures Leads(cfg, measured, was) ==> Leads(cfg, measured, snap)
      ensures KeepsInterfaces(was.routes, snap.routes)
      ensures OverrideSteps(cfg, was, measured, snap) && snap.gw == gw
    {
      hide Valid, FairIfs, Displaces, IsBestOverall, FollowFlags, AllMoveOn, KeepsInterfaces, OverridesAre,
        BestEgressRoute, IsChosen, ArePair, Ruled, Mirrors, SharesEntry;
      FixedEntries();
      DoRoutesMultiGw(false, true, Runtime, gw);
      snap := Snapshot(bestEgress, bestOverall, gw, routes, kernel);
      FixedEntries();
      NoneDisplaced(old(displaced), displaced, routes);
    }

    /** A call displaces an interface exactly if it leaves one with a shared entry, and as long as
        there is none the mirror is exact. */
    ghost predicate Tells(was: set<nat>, snap: Snapshot)
      reads this`displaced
    {
      && (displaced == {} <==> was == {} && Unshared(snap))
      && (was == {} ==> (Exact(snap) <==> Unshared(snap)))
    }

    /** A call at runtime. */
    method Handle(e: Event, ghost measured: seq<Egress>, ghost was: Snapshot) returns (snap: Snapshot)
      requires Stands(measured, was) && IsEvent(cfg, e)
      modifies this
      ensures Stands(After(measured, e), snap) && Tells(old(displaced), snap)
      ensures Leads(cfg, measured, was) && (e.EgressChange? ==> Truthful(measured, e.ifs)) ==>
        Leads(cfg, After(measured, e), snap)
      ensures Steps(cfg, e, was.routes, snap.routes)
      ensures OverrideSteps(cfg, was, After(measured, e), snap) && snap.gw == e.gw
    {
      hide Stands, Tells, Leads, AllMoveOn, KeepsInterfaces, OverrideSteps;
      match e {
        case EgressChange(now, gw) =>
          snap := HandleEgress(now, gw, measured, was);
        case OlsrChange(gw) =>
          snap := HandleOlsr(gw, measured, was);
      }
    }

    /** The entries of the tables that are not those of an interface. */
    lemma FixedEntries()
      requires InStep() && Guarded()
      ensures Ruled(cfg, kernel)
      ensures BestEgress in routes && kernel[Key(cfg.offsetTable, SLASH_0)] == Stored(routes[BestEgress].route)
    {
      FixedSlots();
      var tunnel := Key(cfg.offsetTable, SLASH_0);
      assert Home(cfg, BestEgress, routes[BestEgress].route) && IsLive(routes, live, BestEgress) &&
        Present(routes, kernel, BestEgress);
      forall k | k in kernel && k.table == cfg.offsetTable
        ensures k == tunnel
      {
        var s := Tracker(k);
      }
      HalfIsTracked(0);
      HalfIsTracked(1);
    }

    lemma Tracker(k: Key) returns (s: Slot)
      requires Valid() && k in kernel
      ensures IsLive(routes, live, s) && KeyOf(routes[s].route) == k && Home(cfg, s, routes[s].route)
    {
      assert IsTracked(routes, live, k, kernel[k]);
      s :| IsLive(routes, live, s) && KeyOf(routes[s].route) == k && Stored(routes[s].route) == kernel[k];
    }

    lemma HalfIsTracked(h: nat)
      requires InStep() && h < 2
      ensures Override(h) in routes && (Key(cfg.rtTable, Half(h)) in kernel <==> routes[Override(h)].active)
      ensures routes[Override(h)].active ==> kernel[Key(cfg.rtTable, Half(h))] == Stored(routes[Override(h)].route)
    {
      FixedSlots();
      if Key(cfg.rtTable, Half(h)) in kernel {
        var s := Tracker(Key(cfg.rtTable, Half(h)));
        assert s == Override(h);
      }
      if routes[Override(h)].active {
        assert Home(cfg, Override(h), routes[Override(h)].route) && IsLive(routes, live, Override(h));
        assert Present(routes, kernel, Override(h));
      }
    }
  }

  /** Tunnel traffic has exactly one route, a default route, and the default route is
      overridden completely or not at all. */
  predicate Ruled(cfg: Config, kernel: Kernel) {
    && Key(cfg.offsetTable, SLASH_0) in kernel
    && (forall k :: k in kernel && k.table == cfg.offsetTable ==> k.dst == SLASH_0)
    && (Key(cfg.rtTable, Half(0)) in kernel <==> Key(cfg.rtTable, Half(1)) in kernel)
  }

  // ----- Runs

  /** New measurements of the interfaces, or another olsr gateway. Either call meets the olsr
      gateway with its current path costs. */
  datatype Event = EgressChange(ifs: seq<Egress>, gw: Option<OlsrGw>) | OlsrChange(gw: Option<OlsrGw>)

  ghost predicate IsEvent(cfg: Config, e: Event) {
    OlsrCosts(e.gw) <= COSTS_MAX && (e.EgressChange? ==> |e.ifs| == |cfg.ifTables| && Weighed(e.ifs))
  }

  /** An interface that is not flagged has kept its index and its gateway. */
  predicate Truthful(was: seq<Egress>, now: seq<Egress>) {
    |was| == |now| && forall i :: 0 <= i < |now| && !now[i].upChanged && !now[i].bwChanged ==>
      now[i].ifIndex == was[i].ifIndex && now[i].gateway == was[i].gateway
  }

  /** What an event does to the routes of the interfaces. */
  ghost predicate Steps(cfg: Config, e: Event, was: Tracked, now: Tracked) {
    if e.EgressChange? then AllMoveOn(cfg, e.ifs, was, now, Runtime) else KeepsInterfaces(was, now)
  }

  /** The kernel entry through an interface. */
  function WayThrough(ifs: seq<Egress>, egress: Option<nat>, table: nat): Route
    requires egress.Some? ==> egress.value < |ifs|
  {
    Stored(BestEgressRoute(BestOf(ifs, egress), table).route)
  }

  /** The chosen interface is another one or is flagged, or the way through it is the same. */
  predicate LeadsOn(cfg: Config, was: seq<Egress>, now: seq<Egress>, wasBest: Option<nat>, best: Option<nat>) {
    && (best.Some? ==> best.value < |now|)
    && (best == wasBest && !IsFlagged(now, best) ==>
          (best.Some? ==> best.value < |was|) &&
            WayThrough(was, best, cfg.offsetTable) == WayThrough(now, best, cfg.offsetTable))
  }

  /** An interface that got another index without a flag keeps its old route. */
  lemma UnflaggedIndexStrands(cfg: Config, was: seq<Egress>, now: seq<Egress>, b: nat)
    requires b < |was| && b < |now| && !IsFlagged(now, Some(b))
    requires was[b].ifIndex > 0 && now[b].ifIndex > 0 && was[b].ifIndex != now[b].ifIndex
    ensures !LeadsOn(cfg, was, now, Some(b), Some(b))
  {
  }

  function After(measured: seq<Egress>, e: Event): seq<Egress> {
    if e.EgressChange? then e.ifs else measured
  }

  lemma StillLeads(was: seq<Egress>, now: seq<Egress>, egress: Option<nat>, table: nat)
    requires Truthful(was, now) && (egress.Some? ==> egress.value < |now|) && !IsFlagged(now, egress)
    ensures BestEgressRoute(BestOf(was, egress), table) == BestEgressRoute(BestOf(now, egress), table)
  {
  }

  lemma NoneDisplaced(was: set<nat>, now: set<nat>, routes: Tracked)
    requires Displaces(was, now, routes)
    ensures now == {} <==> was == {} && forall i: nat :: !SharesEntry(routes, i)
  {
    if now == {} {
      assert forall i: nat :: i !in now;
      assert was <= now;
    } else {
      var i :| i in now;
    }
  }

  /** What was measured last before call i. */
  function Measured(ifs: seq<Egress>, events: seq<Event>, i: nat): seq<Egress>
    requires i <= |events|
  {
    if i == 0 then ifs else After(Measured(ifs, events, i - 1), events[i - 1])
  }

  ghost predicate AllTruthful(ifs: seq<Egress>, events: seq<Event>) {
    forall i :: 0 <= i < |events| && events[i].EgressChange? ==> Truthful(Measured(ifs, events, i), events[i].ifs)
  }

  /** The state after a call. */
  datatype Snapshot = Snapshot(
    best: Option<nat>, overall: Overall, gw: Option<OlsrGw>, routes: Tracked, kernel: Kernel)

  ghost predicate Exact(snap: Snapshot) {
    Mirrors(snap.routes, snap.kernel, snap.routes.Keys)
  }

  ghost predicate Unshared(snap: Snapshot) {
    forall i: nat :: !SharesEntry(snap.routes, i)
  }

  /** The link, if it is an interface, is one of these. */
  predicate LinkIn(o: Overall, ifs: seq<Egress>) {
    o.valid && !o.isOlsr && o.link.Some? ==> o.link.value < |ifs|
  }

  /** The kernel entries of the override pair are the active tracked routes. */
  ghost predicate TracksPair(cfg: Config, snap: Snapshot) {
    forall h :: 0 <= h < 2 ==>
      && Override(h) in snap.routes
      && (Key(cfg.rtTable, Half(h)) in snap.kernel <==> snap.routes[Override(h)].active)
      && (snap.routes[Override(h)].active ==>
            snap.kernel[Key(cfg.rtTable, Half(h))] == Stored(snap.routes[Override(h)].route))
  }

  /** Both halves of the address space go through the given interface and gateway, or none does
      if there is no interface. */
  predicate PairGoes(cfg: Config, kernel: Kernel, ifIndex: int, gw: Option<Addr>) {
    forall h :: 0 <= h < 2 ==>
      var key := Key(cfg.rtTable, Half(h));
      if ifIndex == 0 then key !in kernel
      else key in kernel && kernel[key].ifIndex == ifIndex && kernel[key].gw == gw && !kernel[key].blackhole
  }

  /** The default route is overridden by the best link: an egress interface with its gateway, or
      the tunnel of the olsr gateway. */
  predicate Overridden(cfg: Config, ifs: seq<Egress>, snap: Snapshot)
    requires LinkIn(snap.overall, ifs)
  {
    var o := snap.overall;
    if o.valid && !o.isOlsr && o.link.Some? then
      PairGoes(cfg, snap.kernel, ifs[o.link.value].ifIndex, ifs[o.link.value].gateway)
    else if o.valid && o.isOlsr && snap.gw.Some? && snap.gw.value.tunnel.Some? then
      PairGoes(cfg, snap.kernel, snap.gw.value.tunnel.value, None)
    else PairGoes(cfg, snap.kernel, 0, None)
  }

  /** What a call does to the override pair. */
  ghost predicate OverrideSteps(cfg: Config, was: Snapshot, ifs: seq<Egress>, snap: Snapshot)
    requires LinkIn(snap.overall, ifs)
  {
    if Moved(was.overall, snap.overall) then OverridesAre(cfg, snap.routes, Through(snap.overall, ifs, snap.gw))
    else KeepsOverrides(was.routes, snap.routes)
  }

  /** The same interface and gateway, or no interface. */
  predicate SameWay(a: (int, Option<Addr>), b: (int, Option<Addr>)) {
    a.0 == b.0 && (a.0 == 0 || a.1 == b.1)
  }

  /** The best link moved, or the way through it is the same. */
  predicate Follows(was: Snapshot, before: seq<Egress>, now: Snapshot, ifs: seq<Egress>)
    requires LinkIn(was.overall, before) && LinkIn(now.overall, ifs)
  {
    || Moved(was.overall, now.overall)
    || SameWay(Through(was.overall, before, was.gw), Through(now.overall, ifs, now.gw))
  }

  /** An interface that stays the best link and gets another gateway: the override pair still goes
      through the old one. */
  lemma NewGatewayStrands(was: Snapshot, before: seq<Egress>, now: Snapshot, ifs: seq<Egress>, b: nat)
    requires was.overall == now.overall && now.overall.valid && !now.overall.isOlsr && now.overall.link == Some(b)
    requires b < |before| && b < |ifs| && ifs[b].ifIndex == before[b].ifIndex != 0
    requires ifs[b].gateway != before[b].gateway
    ensures LinkIn(was.overall, before) && LinkIn(now.overall, ifs) && !Follows(was, before, now, ifs)
  {
  }

  lemma SetOverrides(cfg: Config, ifs: seq<Egress>, snap: Snapshot)
    requires LinkIn(snap.overall, ifs) && TracksPair(cfg, snap)
    requires OverridesAre(cfg, snap.routes, Through(snap.overall, ifs, snap.gw))
    ensures Overridden(cfg, ifs, snap)
  {
    var t := Through(snap.overall, ifs, snap.gw);
    forall h | 0 <= h < 2
      ensures Override(h) in snap.routes && (t.0 == 0 <==> Key(cfg.rtTable, Half(h)) !in snap.kernel)
    {
    }
    assert PairGoes(cfg, snap.kernel, t.0, t.1);
  }

  lemma KeptPair(cfg: Config, was: Snapshot, now: Snapshot, a: (int, Option<Addr>), b: (int, Option<Addr>))
    requires TracksPair(cfg, was) && TracksPair(cfg, now) && KeepsOverrides(was.routes, now.routes)
    requires PairGoes(cfg, was.kernel, a.0, a.1)
    ensures PairGoes(cfg, now.kernel, b.0, b.1) <==> SameWay(a, b)
  {
    var key := Key(cfg.rtTable, Half(0));
    assert Override(0) in was.routes && Override(1) in was.routes;
    assert key in was.kernel <==> key in now.kernel;
  }

  /** As long as the override pair was right, it stays so exactly if the best link moved or the
      way through it is the same. */
  lemma OverriddenIff(cfg: Config, was: Snapshot, before: seq<Egress>, now: Snapshot, ifs: seq<Egress>)
    requires LinkIn(was.overall, before) && LinkIn(now.overall, ifs) && TracksPair(cfg, was) && TracksPair(cfg, now)
    requires OverrideSteps(cfg, was, ifs, now) && Overridden(cfg, before, was)
    ensures Overridden(cfg, ifs, now) <==> Follows(was, before, now, ifs)
  {
    if Moved(was.overall, now.overall) {
      SetOverrides(cfg, ifs, now);
    } else {
      hide TracksPair, PairGoes, KeepsOverrides;
      KeptPair(cfg, was, now, Through(was.overall, before, was.gw), Through(now.overall, ifs, now.gw));
    }
  }

  /** The best interface is chosen among the measured ones, and the kernel is ruled. */
  ghost predicate Good(cfg: Config, ifs: seq<Egress>, snap: Snapshot) {
    && IsChosen(ifs, snap.best, Runtime) && (snap.best.Some? ==> snap.best.value < |ifs|) && Ruled(cfg, snap.kernel)
    && LinkIn(snap.overall, ifs)
  }

  /** Tunnel traffic goes through the best interface and its gateway. */
  ghost predicate Leads(cfg: Config, ifs: seq<Egress>, snap: Snapshot)
    requires Good(cfg, ifs, snap)
  {
    snap.kernel[Key(cfg.offsetTable, SLASH_0)] == Stored(BestEgressRoute(BestOf(ifs, snap.best), cfg.offsetTable).route)
  }

  /** All measurements are of the configured interfaces. */
  predicate Covers(cfg: Config, ifs: seq<Egress>, events: seq<Event>) {
    |ifs| == |cfg.ifTables| && forall k :: 0 <= k < |events| && events[k].EgressChange? ==> |events[k].ifs| == |ifs|
  }

  /** The routes of interface i after call k, as they follow from the measurements alone. */
  function PairAt(cfg: Config, ifs: seq<Egress>, events: seq<Event>, k: nat, i: nat): Pair
    requires Covers(cfg, ifs, events) && k <= |events| && i < |ifs|
  {
    if k == 0 then Pair(NetworkRoute(ifs[i], cfg.ifTables[i]), DefaultRoute(ifs[i], cfg.ifTables[i]))
    else
      var was, e := PairAt(cfg, ifs, events, k - 1, i), events[k - 1];
      if e.EgressChange? then NextPair(was, e.ifs[i], cfg.ifTables[i], Runtime) else was
  }

  /** Both routes are active, and they are after one kernel entry. */
  predicate PairShares(pair: Pair) {
    pair.net.active && pair.def.active && pair.net.route.dst == SLASH_0
  }

  /** No call leaves an interface with two routes for one entry. */
  ghost predicate NeverShares(cfg: Config, ifs: seq<Egress>, events: seq<Event>)
    requires Covers(cfg, ifs, events)
  {
    forall k, i :: 0 <= k <= |events| && 0 <= i < |ifs| ==> !PairShares(PairAt(cfg, ifs, events, k, i))
  }

  /** At startup that is a matter of the declared network of an interface that can be used. */
  lemma SharesAtStart(cfg: Config, ifs: seq<Egress>, events: seq<Event>, i: nat)
    requires Covers(cfg, ifs, events) && i < |ifs|
    ensures PairShares(PairAt(cfg, ifs, events, 0, i)) <==>
      ifs[i].network == Some(SLASH_0) && ifs[i].up && ifs[i].costs != COSTS_MAX
  {
  }

  /** It never happens if no network that is measured leads everywhere. */
  lemma {:induction false} NarrowNeverShares(cfg: Config, ifs: seq<Egress>, events: seq<Event>, k: nat, i: nat)
    requires Covers(cfg, ifs, events) && k <= |events| && i < |ifs| && ifs[i].network != Some(SLASH_0)
    requires forall j :: 0 <= j < |events| && events[j].EgressChange? ==> events[j].ifs[i].network != Some(SLASH_0)
    ensures var net := PairAt(cfg, ifs, events, k, i).net; net.active ==> net.route.dst != SLASH_0
    ensures !PairShares(PairAt(cfg, ifs, events, k, i))
  {
    if k > 0 {
      NarrowNeverShares(cfg, ifs, events, k - 1, i);
    }
  }

  /** The snapshots hold the routes that follow from the measurements. */
  ghost predicate AllPairs(cfg: Config, ifs: seq<Egress>, events: seq<Event>, snaps: seq<Snapshot>)
    requires Covers(cfg, ifs, events) && |snaps| <= |events| + 1
  {
    forall k, i :: 0 <= k < |snaps| && 0 <= i < |ifs| ==> HasPair(snaps[k].routes, i, PairAt(cfg, ifs, events, k, i))
  }

  lemma StartPairs(cfg: Config, ifs: seq<Egress>, events: seq<Event>, was: Tracked, snap: Snapshot)
    requires Covers(cfg, ifs, events) && AllMoveOn(cfg, ifs, was, snap.routes, Startup)
    ensures AllPairs(cfg, ifs, events, [snap])
  {
    hide NetworkRoute, DefaultRoute;
    forall i | 0 <= i < |ifs|
      ensures HasPair(snap.routes, i, PairAt(cfg, ifs, events, 0, i))
    {
      assert MovesOn(cfg, ifs, was, snap.routes, i, Startup);
    }
  }

  lemma PairsSnoc(cfg: Config, ifs: seq<Egress>, events: seq<Event>, snaps: seq<Snapshot>, snap: Snapshot)
    requires Covers(cfg, ifs, events) && 0 < |snaps| <= |events| && AllPairs(cfg, ifs, events, snaps)
    requires Steps(cfg, events[|snaps| - 1], snaps[|snaps| - 1].routes, snap.routes)
    ensures AllPairs(cfg, ifs, events, snaps + [snap])
  {
    hide NextPair;
    var k, e := |snaps|, events[|snaps| - 1];
    forall i | 0 <= i < |ifs|
      ensures HasPair(snap.routes, i, PairAt(cfg, ifs, events, k, i))
    {
      assert HasPair(snaps[k - 1].routes, i, PairAt(cfg, ifs, events, k - 1, i));
      if e.EgressChange? {
        assert MovesOn(cfg, e.ifs, snaps[k - 1].routes, snap.routes, i, Runtime);
      }
    }
    hide PairAt, HasPair;
  }

  ghost predicate Bounded(n: nat, snap: Snapshot) {
    forall i: nat :: SharesEntry(snap.routes, i) ==> i < n
  }

  /** So the mirror condition can be read off the measurements. */
  lemma UnsharedIff(cfg: Config, ifs: seq<Egress>, events: seq<Event>, snaps: seq<Snapshot>)
    requires Covers(cfg, ifs, events) && |snaps| == |events| + 1 && AllPairs(cfg, ifs, events, snaps)
    requires forall k :: 0 <= k < |snaps| ==> Bounded(|ifs|, snaps[k])
    ensures AllUnshared(snaps) <==> NeverShares(cfg, ifs, events)
  {
    hide PairAt;
    forall k, i | 0 <= k < |snaps| && 0 <= i < |ifs|
      ensures SharesEntry(snaps[k].routes, i) <==> PairShares(PairAt(cfg, ifs, events, k, i))
    {
      assert HasPair(snaps[k].routes, i, PairAt(cfg, ifs, events, k, i));
    }
    hide SharesEntry, PairShares, HasPair;
    if AllUnshared(snaps) {
      forall k, i | 0 <= k <= |events| && 0 <= i < |ifs|
        ensures !PairShares(PairAt(cfg, ifs, events, k, i))
      {
        assert Unshared(snaps[k]);
      }
    } else {
      var k :| 0 <= k < |snaps| && !Unshared(snaps[k]);
      assert Bounded(|ifs|, snaps[k]);
      var i: nat :| SharesEntry(snaps[k].routes, i);
    }
  }

  /** What leading means: tunnel traffic goes through the chosen interface and its gateway, and is
      swallowed without one. */
  lemma LeadsIs(cfg: Config, ifs: seq<Egress>, snap: Snapshot)
    requires Good(cfg, ifs, snap) && Leads(cfg, ifs, snap)
    ensures var r := snap.kernel[Key(cfg.offsetTable, SLASH_0)];
      if snap.best.Some? && ifs[snap.best.value].ifIndex > 0
        then r.ifIndex == ifs[snap.best.value].ifIndex && r.gw == ifs[snap.best.value].gateway && !r.blackhole
      else r.blackhole && r.gw == None
  {
  }

  /** From startup to shutdown, whatever is measured in between: the best usable interface is
      chosen after every call, tunnel traffic goes through it if the flags are truthful, the
      kernel holds exactly the active tracked routes in all calls if and only if the
      measurements leave no interface with two routes for one entry, and in the end it holds
      nothing. */
  method Run(cfg: Config, ifs: seq<Egress>, gw: Option<OlsrGw>, events: seq<Event>)
      returns (snaps: seq<Snapshot>, last: Kernel)
    requires DistinctTables(cfg) && FairIfs(cfg, ifs) && OlsrCosts(gw) <= COSTS_MAX
    requires forall i :: 0 <= i < |events| ==> IsEvent(cfg, events[i])
    ensures |snaps| == |events| + 1 && last == map[] && Covers(cfg, ifs, events)
    ensures AllGood(cfg, ifs, events, snaps) && (AllTruthful(ifs, events) ==> AllLead(cfg, ifs, events, snaps))
    ensures AllPairs(cfg, ifs, events, snaps) && (AllExact(snaps) <==> NeverShares(cfg, ifs, events))
    ensures AllOverridden(cfg, ifs, events, snaps) <==> AllFollow(cfg, ifs, events, snaps)
  {
    assert Covers(cfg, ifs, events);
    hide OverridesAre, OverrideSteps, TracksPair, FairIfs, Chronicle, AllExact, AllUnshared, DistinctTables, After;
    hide Covers, Bounded, Steps, Leads, Truthful,
      AllMoveOn, Good, MultiGateway.InStep, MultiGateway.Guarded, MultiGateway.Stands;
    var m := new MultiGateway(cfg, ifs);
    ghost var none := m.routes;
    var snap := m.Start(gw);
    snaps := [snap];
    IsBounded(m, ifs, snap);
    ChronicleStarts(cfg, ifs, events, none, snap);
    var cur := gw;
    for i := 0 to |events|
      invariant |snaps| == i + 1 && m.cfg == cfg && OlsrCosts(cur) <= COSTS_MAX &&
        m.Stands(Measured(ifs, events, i), snaps[i])
      invariant Chronicle(cfg, ifs, events, snaps)
      invariant (AllUnshared(snaps) <==> m.displaced == {}) && (AllExact(snaps) <==> m.displaced == {})
    {
      var e := events[i];
      IsBounded(m, Measured(ifs, events, i), snaps[i]);
      snap := m.Handle(e, Measured(ifs, events, i), snaps[i]);
      SnapsSnoc(snaps, snap);
      IsBounded(m, After(Measured(ifs, events, i), e), snap);
      ChronicleSnoc(cfg, ifs, events, snaps, snap);
      snaps := snaps + [snap];
      cur := e.gw;
    }
    ChronicleEnds(cfg, ifs, events, snaps);
    m.Stop(cur);
    last := m.kernel;
  }

  /** What is known about the calls so far. */
  ghost predicate Chronicle(cfg: Config, ifs: seq<Egress>, events: seq<Event>, snaps: seq<Snapshot>)
    requires Covers(cfg, ifs, events)
  {
    && AllGood(cfg, ifs, events, snaps) && (AllTruthful(ifs, events) ==> AllLead(cfg, ifs, events, snaps))
    && AllPairs(cfg, ifs, events, snaps) && (forall k :: 0 <= k < |snaps| ==> Bounded(|cfg.ifTables|, snaps[k]))
    && AllOverrideSteps(cfg, ifs, events, snaps)
  }

  /** The override pair starts right, and every call does to it what it should. */
  ghost predicate AllOverrideSteps(cfg: Config, ifs: seq<Egress>, events: seq<Event>, snaps: seq<Snapshot>)
    requires AllGood(cfg, ifs, events, snaps)
  {
    && (forall k :: 0 <= k < |snaps| ==> TracksPair(cfg, snaps[k]))
    && (snaps != [] ==> Overridden(cfg, ifs, snaps[0]))
    && forall k :: 0 < k < |snaps| ==> OverrideSteps(cfg, snaps[k - 1], Measured(ifs, events, k), snaps[k])
  }

  /** After every call the default route is overridden by the best link. */
  ghost predicate AllOverridden(cfg: Config, ifs: seq<Egress>, events: seq<Event>, snaps: seq<Snapshot>)
    requires AllGood(cfg, ifs, events, snaps)
  {
    forall k :: 0 <= k < |snaps| ==> Overridden(cfg, Measured(ifs, events, k), snaps[k])
  }

  /** In every call the best link moves, or the way through it stays the same. */
  ghost predicate AllFollow(cfg: Config, ifs: seq<Egress>, events: seq<Event>, snaps: seq<Snapshot>)
    requires AllGood(cfg, ifs, events, snaps)
  {
    forall k :: 0 < k < |snaps| ==> FollowsAt(cfg, ifs, events, snaps, k)
  }

  ghost predicate FollowsAt(cfg: Config, ifs: seq<Egress>, events: seq<Event>, snaps: seq<Snapshot>, k: nat)
    requires AllGood(cfg, ifs, events, snaps) && 0 < k < |snaps|
  {
    Follows(snaps[k - 1], Measured(ifs, events, k - 1), snaps[k], Measured(ifs, events, k))
  }

  lemma StepIff(cfg: Config, ifs: seq<Egress>, events: seq<Event>, snaps: seq<Snapshot>, k: nat)
    requires AllGood(cfg, ifs, events, snaps) && AllOverrideSteps(cfg, ifs, events, snaps) && 0 < k < |snaps|
    requires Overridden(cfg, Measured(ifs, events, k - 1), snaps[k - 1])
    ensures Overridden(cfg, Measured(ifs, events, k), snaps[k]) <==> FollowsAt(cfg, ifs, events, snaps, k)
  {
    assert Good(cfg, Measured(ifs, events, k - 1), snaps[k - 1]) && Good(cfg, Measured(ifs, events, k), snaps[k]);
    hide TracksPair, Overridden, OverrideSteps, Measured, IsChosen, Ruled, Follows;
    OverriddenIff(cfg, snaps[k - 1], Measured(ifs, events, k - 1), snaps[k], Measured(ifs, events, k));
  }

  lemma {:induction false} FollowedUpTo(cfg: Config, ifs: seq<Egress>, events: seq<Event>, snaps: seq<Snapshot>, k: nat)
    requires AllGood(cfg, ifs, events, snaps) && AllOverrideSteps(cfg, ifs, events, snaps) && k < |snaps|
    requires AllFollow(cfg, ifs, events, snaps)
    ensures Overridden(cfg, Measured(ifs, events, k), snaps[k])
  {
    if k > 0 {
      hide AllOverrideSteps, Overridden, FollowsAt, Good;
      FollowedUpTo(cfg, ifs, events, snaps, k - 1);
      StepIff(cfg, ifs, events, snaps, k);
    }
  }

  lemma AllOverriddenIff(cfg: Config, ifs: seq<Egress>, events: seq<Event>, snaps: seq<Snapshot>)
    requires AllGood(cfg, ifs, events, snaps) && AllOverrideSteps(cfg, ifs, events, snaps)
    ensures AllOverridden(cfg, ifs, events, snaps) <==> AllFollow(cfg, ifs, events, snaps)
  {
    hide AllOverrideSteps, Overridden, FollowsAt, IsChosen, Ruled, Measured;
    if AllFollow(cfg, ifs, events, snaps) {
      forall k | 0 <= k < |snaps|
        ensures Overridden(cfg, Measured(ifs, events, k), snaps[k])
      {
        FollowedUpTo(cfg, ifs, events, snaps, k);
      }
    }
    if AllOverridden(cfg, ifs, events, snaps) {
      forall k | 0 < k < |snaps|
        ensures FollowsAt(cfg, ifs, events, snaps, k)
      {
        StepIff(cfg, ifs, events, snaps, k);
      }
    }
  }

  lemma ChronicleStarts(cfg: Config, ifs: seq<Egress>, events: seq<Event>, was: Tracked, snap: Snapshot)
    requires Covers(cfg, ifs, events) && Good(cfg, ifs, snap) && Leads(cfg, ifs, snap) && Bounded(|cfg.ifTables|, snap)
    requires AllMoveOn(cfg, ifs, was, snap.routes, Startup) && TracksPair(cfg, snap)
    requires OverridesAre(cfg, snap.routes, Through(snap.overall, ifs, snap.gw))
    ensures Chronicle(cfg, ifs, events, [snap])
    ensures (AllUnshared([snap]) <==> Unshared(snap)) && (AllExact([snap]) <==> Exact(snap))
  {
    SetOverrides(cfg, ifs, snap);
    hide Good, Leads, Bounded, AllPairs, AllGood, AllLead, TracksPair, Overridden;
    OneSnap(cfg, ifs, events, snap);
    StartPairs(cfg, ifs, events, was, snap);
  }

  lemma ChronicleSnoc(cfg: Config, ifs: seq<Egress>, events: seq<Event>, snaps: seq<Snapshot>, snap: Snapshot)
    requires Covers(cfg, ifs, events) && 0 < |snaps| <= |events| && Chronicle(cfg, ifs, events, snaps)
    requires var k := |snaps| - 1;
      var measured, e := Measured(ifs, events, k), events[k];
      && Good(cfg, measured, snaps[k]) && Good(cfg, After(measured, e), snap)
      && (Leads(cfg, measured, snaps[k]) && (e.EgressChange? ==> Truthful(measured, e.ifs)) ==>
        Leads(cfg, After(measured, e), snap))
      && Steps(cfg, e, snaps[k].routes, snap.routes) && Bounded(|cfg.ifTables|, snap)
      && OverrideSteps(cfg, snaps[k], After(measured, e), snap) && TracksPair(cfg, snap)
    ensures Chronicle(cfg, ifs, events, snaps + [snap])
  {
    hide Good, Leads, Bounded, AllPairs, AllGood, AllLead, Truthful, Steps, AllTruthful, After, TracksPair, Overridden,
      OverrideSteps;
    LastLeads(cfg, ifs, events, snaps);
    HistorySnoc(cfg, ifs, events, snaps, snap);
    PairsSnoc(cfg, ifs, events, snaps, snap);
  }

  lemma ChronicleEnds(cfg: Config, ifs: seq<Egress>, events: seq<Event>, snaps: seq<Snapshot>)
    requires Covers(cfg, ifs, events) && |snaps| == |events| + 1 && Chronicle(cfg, ifs, events, snaps)
    ensures AllGood(cfg, ifs, events, snaps) && (AllTruthful(ifs, events) ==> AllLead(cfg, ifs, events, snaps))
    ensures AllPairs(cfg, ifs, events, snaps) && (AllUnshared(snaps) <==> NeverShares(cfg, ifs, events))
    ensures AllOverridden(cfg, ifs, events, snaps) <==> AllFollow(cfg, ifs, events, snaps)
  {
    AllOverriddenIff(cfg, ifs, events, snaps);
    hide AllGood, AllLead, AllPairs, AllTruthful, AllUnshared, NeverShares, Bounded;
    UnsharedIff(cfg, ifs, events, snaps);
  }

  lemma IsBounded(m: MultiGateway, measured: seq<Egress>, snap: Snapshot)
    requires m.Stands(measured, snap)
    ensures Good(m.cfg, measured, snap) && Bounded(|m.cfg.ifTables|, snap) && TracksPair(m.cfg, snap)
  {
    m.StandsGood(measured, snap);
  }

  ghost predicate AllGood(cfg: Config, ifs: seq<Egress>, events: seq<Event>, snaps: seq<Snapshot>) {
    |snaps| <= |events| + 1 && forall i :: 0 <= i < |snaps| ==> Good(cfg, Measured(ifs, events, i), snaps[i])
  }

  ghost predicate AllLead(cfg: Config, ifs: seq<Egress>, events: seq<Event>, snaps: seq<Snapshot>)
    requires AllGood(cfg, ifs, events, snaps)
  {
    forall i :: 0 <= i < |snaps| ==> Leads(cfg, Measured(ifs, events, i), snaps[i])
  }

  lemma OneSnap(cfg: Config, ifs: seq<Egress>, events: seq<Event>, snap: Snapshot)
    requires Good(cfg, ifs, snap) && Leads(cfg, ifs, snap)
    ensures AllGood(cfg, ifs, events, [snap]) && AllLead(cfg, ifs, events, [snap])
    ensures (AllUnshared([snap]) <==> Unshared(snap)) && (AllExact([snap]) <==> Exact(snap))
  {
    hide Exact, Unshared, Good, Leads;
    assert [snap][0] == snap;
  }

  lemma LastLeads(cfg: Config, ifs: seq<Egress>, events: seq<Event>, snaps: seq<Snapshot>)
    requires 0 < |snaps| <= |events| && AllGood(cfg, ifs, events, snaps) &&
      (AllTruthful(ifs, events) ==> AllLead(cfg, ifs, events, snaps))
    ensures var i := |snaps| - 1; AllTruthful(ifs, events) ==>
      Leads(cfg, Measured(ifs, events, i), snaps[i]) &&
        (events[i].EgressChange? ==> Truthful(Measured(ifs, events, i), events[i].ifs))
  {
  }

  lemma HistorySnoc(cfg: Config, ifs: seq<Egress>, events: seq<Event>, snaps: seq<Snapshot>, snap: Snapshot)
    requires |snaps| <= |events| && AllGood(cfg, ifs, events, snaps) && Good(cfg, Measured(ifs, events, |snaps|), snap)
    ensures AllGood(cfg, ifs, events, snaps + [snap])
    ensures AllLead(cfg, ifs, events, snaps) && Leads(cfg, Measured(ifs, events, |snaps|), snap) ==>
      AllLead(cfg, ifs, events, snaps + [snap])
  {
    hide Good, Leads, Measured;
  }

  ghost predicate AllUnshared(snaps: seq<Snapshot>) {
    forall i :: 0 <= i < |snaps| ==> Unshared(snaps[i])
  }

  ghost predicate AllExact(snaps: seq<Snapshot>) {
    forall i :: 0 <= i < |snaps| ==> Exact(snaps[i])
  }

  lemma SnapsSnoc(snaps: seq<Snapshot>, snap: Snapshot)
    ensures AllUnshared(snaps + [snap]) <==> AllUnshared(snaps) && Unshared(snap)
    ensures AllExact(snaps + [snap]) <==> AllExact(snaps) && Exact(snap)
  {
    hide Exact, Unshared;
    var all := snaps + [snap];
    assert all[|snaps|] == snap && forall i :: 0 <= i < |snaps| ==> all[i] == snaps[i];
  }
}
