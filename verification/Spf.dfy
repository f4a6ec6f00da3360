/** Shortest path first: Dijkstra's algorithm over the link state database, with a binary
    heap or an AVL tree as the candidate queue. */
module Spf {
  import opened Topology
  import opened CandHeap

  /** A link to a neighbour, which becomes the next hop of a route. */
  type Link = nat

  /** The SPF fields of a vertex. `hops` is an 8-bit field. */
  datatype Entry = Entry(pathCost: nat, hops: nat, nextHop: Option<Link>)

  type Vertices = map<Addr, Entry>

  /** The input of a run: the topology, our own vertex, and the next hops that were set for
      our neighbours before the run. */
  datatype Input = Input(g: Graph, root: Addr, pre: map<Addr, Option<Link>>)

  /** Only neighbours have a preset next hop, and every usable edge out of the root leads to
      a vertex that has one. */
  ghost predicate NextHopsPreset(p: Input) {
    && p.root in p.g.edges && p.g.edges.Keys <= p.pre.Keys && p.pre[p.root] == None
    && forall e :: e in p.g.edges[p.root] && Usable(p.g, p.root, e) && e.dest != p.root ==> p.pre[e.dest].Some?
  }

  /** Walk w has the cost, the hop count and the next hop of vertex a. */
  ghost predicate Explains(p: Input, a: Addr, t: Entry, w: Walk) {
    && IsWalk(p.g, p.root, w) && End(p.root, w) == a
    && t.pathCost == Cost(w)
    && t.hops == Hops(w) % 256
    && (NextHopsPreset(p) ==> RightNextHop(p, t, w))
  }

  ghost predicate RightNextHop(p: Input, t: Entry, w: Walk) {
    match w
    case Start => t.nextHop == None
    case Hop(_, _) => t.nextHop.Some? && FirstHop(w) in p.pre && t.nextHop == p.pre[FirstHop(w)]
  }

  ghost predicate HasWalk(p: Input, a: Addr, t: Entry, maxHops: int) {
    exists w :: Explains(p, a, t, w) && Hops(w) <= maxHops
  }

  /** Settled vertices and candidates are disjoint, and together they are the vertices that
      have a path cost. */
  ghost predicate Partition(p: Input, tc: Vertices, queue: set<Addr>, path: seq<Addr>) {
    && tc.Keys == p.g.edges.Keys && queue <= tc.Keys
    && (forall i :: 0 <= i < |path| ==> path[i] in tc && path[i] !in queue)
    && (forall i, j :: 0 <= i < j < |path| ==> path[i] != path[j])
    && (forall a :: a in tc ==> tc[a].pathCost <= ROUTE_COST_BROKEN)
    && (forall a :: a in tc ==> (tc[a].pathCost < ROUTE_COST_BROKEN <==> a in queue || a in path))
  }

  /** Vertices are settled nearest first, and no candidate is nearer than a settled one. */
  ghost predicate Ordered(tc: Vertices, queue: set<Addr>, path: seq<Addr>)
    requires queue <= tc.Keys && forall i :: 0 <= i < |path| ==> path[i] in tc
  {
    && (forall i, j :: 0 <= i < j < |path| ==> tc[path[i]].pathCost <= tc[path[j]].pathCost)
    && (forall i, a :: 0 <= i < |path| && a in queue ==> tc[path[i]].pathCost <= tc[a].pathCost)
  }

  /** The 32-bit sum of a path cost and an edge cost. */
  function NewCost(t: Entry, e: Edge): nat {
    (t.pathCost + e.cost) % COST_MODULUS
  }

  /** Edge j of vertex u cannot improve anything any more. */
  ghost predicate EdgeClosed(g: Graph, tc: Vertices, u: Addr, j: nat) {
    u in g.edges && j < |g.edges[u]| && u in tc && Usable(g, u, g.edges[u][j]) ==>
      var e := g.edges[u][j];
      e.dest in tc && tc[e.dest].pathCost <= NewCost(tc[u], e)
  }

  /** The last settled vertex. */
  function Last(path: seq<Addr>): Addr
    requires path != []
  {
    path[|path| - 1]
  }

  /** All edges of the settled vertices are closed; of the last one, the first k. */
  ghost predicate Closed(g: Graph, tc: Vertices, path: seq<Addr>, k: nat) {
    && (forall i, j :: 0 <= i < |path| - 1 && 0 <= j ==> EdgeClosed(g, tc, path[i], j))
    && (path != [] ==> forall j :: 0 <= j < k ==> EdgeClosed(g, tc, Last(path), j))
  }

  /** Every path cost, hop count and next hop belongs to a walk, and no vertex is further
      away in hops than the number of vertices settled before it. */
  ghost predicate Explained(p: Input, tc: Vertices, queue: set<Addr>, path: seq<Addr>)
    requires queue <= tc.Keys && forall i :: 0 <= i < |path| ==> path[i] in tc
  {
    && (forall i :: 0 <= i < |path| ==> HasWalk(p, path[i], tc[path[i]], i))
    && (forall a :: a in queue ==> HasWalk(p, a, tc[a], |path|))
  }

  /** The root comes first, and until it has been relaxed nobody lost a preset next hop. */
  ghost predicate RootFirst(p: Input, tc: Vertices, queue: set<Addr>, path: seq<Addr>) {
    && (path == [] ==> queue == {p.root})
    && (path != [] ==> path[0] == p.root)
    && (|path| <= 1 && NextHopsPreset(p) ==> forall a :: a in tc ==> a in p.pre && tc[a].nextHop == p.pre[a])
  }

  /** No walk is cheaper than the path cost of the settled vertex it ends in, or than that of
      the last settled vertex if it ends elsewhere. */
  ghost predicate Final(p: Input, tc: Vertices, path: seq<Addr>)
    requires forall i :: 0 <= i < |path| ==> path[i] in tc
  {
    forall w :: IsWalk(p.g, p.root, w) ==>
      if End(p.root, w) in path then tc[End(p.root, w)].pathCost <= Cost(w)
      else path != [] ==> tc[Last(path)].pathCost <= Cost(w)
  }

  /** What holds while the vertices of `path` are settled, those of `queue` are candidates,
      and the first k edges of the last settled vertex have been relaxed. */
  ghost predicate Inv(p: Input, tc: Vertices, queue: set<Addr>, path: seq<Addr>, k: nat) {
    && Partition(p, tc, queue, path)
    && Ordered(tc, queue, path)
    && RootFirst(p, tc, queue, path)
    && Closed(p.g, tc, path, k)
    && Explained(p, tc, queue, path)
    && Final(p, tc, path)
  }

  /** The number of edges of the last settled vertex. */
  function LastDegree(g: Graph, path: seq<Addr>): nat {
    if path == [] || Last(path) !in g.edges then 0 else |g.edges[Last(path)]|
  }

  /** What holds between two passes of the main loop. */
  ghost predicate Between(p: Input, tc: Vertices, queue: set<Addr>, path: seq<Addr>) {
    Inv(p, tc, queue, path, LastDegree(p.g, path))
  }

  ghost predicate Cheapest(tc: Vertices, queue: set<Addr>, u: Addr)
    requires queue <= tc.Keys
  {
    u in queue && forall b :: b in queue ==> tc[u].pathCost <= tc[b].pathCost
  }

  /** A walk that is cheap enough ends in a settled vertex, or some candidate is at most as
      far as its end. */
  lemma {:induction false} Frontier(p: Input, tc: Vertices, queue: set<Addr>, path: seq<Addr>, w: Walk)
    requires Between(p, tc, queue, path) && IsWalk(p.g, p.root, w) && Cost(w) < ROUTE_COST_BROKEN
    ensures || (End(p.root, w) in path && tc[End(p.root, w)].pathCost <= Cost(w))
            || exists b :: b in queue && tc[b].pathCost <= Cost(w)
  {
    hide Explained, Ordered, RootFirst, Final;
    match w
    case Start =>
      RootCost(p, tc, queue, path);
    case Hop(v, e) =>
      Frontier(p, tc, queue, path, v);
      var u := End(p.root, v);
      if u in path && tc[u].pathCost <= Cost(v) {
        var i :| 0 <= i < |path| && path[i] == u;
        var j :| 0 <= j < |p.g.edges[u]| && p.g.edges[u][j] == e;
        assert EdgeClosed(p.g, tc, path[i], j);
        SumInRange(tc[u], e);
      }
  }

  lemma RootCost(p: Input, tc: Vertices, queue: set<Addr>, path: seq<Addr>)
    requires Partition(p, tc, queue, path) && RootFirst(p, tc, queue, path) && Explained(p, tc, queue, path)
    ensures p.root in tc && tc[p.root].pathCost == 0 && (p.root in path || p.root in queue)
  {
    assert HasWalk(p, p.root, tc[p.root], 0);
    var w :| Explains(p, p.root, tc[p.root], w) && Hops(w) <= 0;
    assert w.Start?;
  }

  /** The cheapest candidate is already at its final, shortest distance. */
  lemma CheapestIsShortest(p: Input, tc: Vertices, queue: set<Addr>, path: seq<Addr>, u: Addr) returns (w: Walk)
    requires Between(p, tc, queue, path) && Cheapest(tc, queue, u)
    ensures Explains(p, u, tc[u], w) && IsShortest(p.g, p.root, w)
  {
    assert HasWalk(p, u, tc[u], |path|);
    w :| Explains(p, u, tc[u], w) && Hops(w) <= |path|;
    forall w' | IsWalk(p.g, p.root, w') && End(p.root, w') == u
      ensures Cost(w) <= Cost(w')
    {
      if Cost(w') < ROUTE_COST_BROKEN {
        Frontier(p, tc, queue, path, w');
      }
    }
  }

  /** Settling the cheapest candidate, before any of its edges is relaxed. */
  lemma Settle(p: Input, tc: Vertices, queue: set<Addr>, path: seq<Addr>, u: Addr)
    requires Between(p, tc, queue, path) && Cheapest(tc, queue, u)
    ensures Inv(p, tc, queue - {u}, path + [u], 0)
  {
    SettlePartition(p, tc, queue, path, u);
    SettleOrdered(tc, queue, path, u);
    SettleRootFirst(p, tc, queue, path, u);
    SettleClosed(p.g, tc, path, u);
    SettleExplained(p, tc, queue, path, u);
    SettleFinal(p, tc, queue, path, u);
    hide Ordered, RootFirst, Closed, Explained, Final;
  }

  lemma SettlePartition(p: Input, tc: Vertices, queue: set<Addr>, path: seq<Addr>, u: Addr)
    requires Partition(p, tc, queue, path) && u in queue
    ensures Partition(p, tc, queue - {u}, path + [u])
  {
  }

  lemma SettleOrdered(tc: Vertices, queue: set<Addr>, path: seq<Addr>, u: Addr)
    requires queue <= tc.Keys && forall i :: 0 <= i < |path| ==> path[i] in tc
    requires Ordered(tc, queue, path) && Cheapest(tc, queue, u)
    ensures Ordered(tc, queue - {u}, path + [u])
  {
  }

  lemma SettleRootFirst(p: Input, tc: Vertices, queue: set<Addr>, path: seq<Addr>, u: Addr)
    requires RootFirst(p, tc, queue, path) && u in queue
    ensures RootFirst(p, tc, queue - {u}, path + [u])
  {
  }

  lemma SettleClosed(g: Graph, tc: Vertices, path: seq<Addr>, u: Addr)
    requires Closed(g, tc, path, LastDegree(g, path))
    ensures Closed(g, tc, path + [u], 0)
  {
  }

  lemma SettleExplained(p: Input, tc: Vertices, queue: set<Addr>, path: seq<Addr>, u: Addr)
    requires queue <= tc.Keys && forall i :: 0 <= i < |path| ==> path[i] in tc
    requires Explained(p, tc, queue, path) && u in queue
    ensures Explained(p, tc, queue - {u}, path + [u])
  {
    forall a | a in queue
      ensures HasWalk(p, a, tc[a], |path + [u]|)
    {
      assert HasWalk(p, a, tc[a], |path|);
    }
  }

  lemma SettleFinal(p: Input, tc: Vertices, queue: set<Addr>, path: seq<Addr>, u: Addr)
    requires Between(p, tc, queue, path) && Cheapest(tc, queue, u)
    ensures Final(p, tc, path + [u])
  {
    hide Explained, Ordered, RootFirst, Closed;
    forall w | IsWalk(p.g, p.root, w) && End(p.root, w) !in path
      ensures tc[u].pathCost <= Cost(w)
    {
      if Cost(w) < ROUTE_COST_BROKEN {
        Frontier(p, tc, queue, path, w);
      }
    }
  }

  lemma SumInRange(t: Entry, e: Edge)
    requires t.pathCost + e.cost < COST_MODULUS
    ensures NewCost(t, e) == t.pathCost + e.cost
  {
  }

  /** A sum that wraps is below the path cost it started from. */
  lemma SumWraps(t: Entry, e: Edge)
    requires t.pathCost <= ROUTE_COST_BROKEN && t.pathCost + e.cost >= COST_MODULUS
    ensures NewCost(t, e) == t.pathCost + e.cost - COST_MODULUS < t.pathCost
  {
  }

  /** The entry `was` of the far end of e after it was improved through a vertex with entry t. */
  function Improved(t: Entry, e: Edge, was: Entry): Entry {
    Entry(NewCost(t, e), (t.hops + 1) % 256, if t.nextHop.Some? then t.nextHop else was.nextHop)
  }

  /** The relaxation of edge e of the last settled vertex changes nothing. */
  lemma RelaxNothing(p: Input, tc: Vertices, queue: set<Addr>, path: seq<Addr>, k: nat)
    requires path != [] && Inv(p, tc, queue, path, k) && k < |p.g.edges[Last(path)]|
    requires EdgeClosed(p.g, tc, Last(path), k)
    ensures Inv(p, tc, queue, path, k + 1)
  {
  }

  /** Only a vertex that is not settled can be improved. */
  lemma SettledIsFinal(p: Input, tc: Vertices, queue: set<Addr>, path: seq<Addr>, e: Edge)
    requires path != [] && Partition(p, tc, queue, path) && Ordered(tc, queue, path)
    requires tc[Last(path)].pathCost + e.cost < COST_MODULUS && e.dest in tc
    requires NewCost(tc[Last(path)], e) < tc[e.dest].pathCost
    ensures e.dest !in path
    ensures e.dest in queue <==> tc[e.dest].pathCost < ROUTE_COST_BROKEN
  {
  }

  /** The relaxation of edge k of the last settled vertex improves the far end. */
  lemma RelaxImproves(p: Input, tc: Vertices, queue: set<Addr>, path: seq<Addr>, k: nat)
    requires path != [] && Inv(p, tc, queue, path, k) && k < |p.g.edges[Last(path)]|
    requires var e := p.g.edges[Last(path)][k];
      && Usable(p.g, Last(path), e) && tc[Last(path)].pathCost + e.cost < COST_MODULUS
      && NewCost(tc[Last(path)], e) < tc[e.dest].pathCost
    ensures var e := p.g.edges[Last(path)][k];
      Inv(p, tc[e.dest := Improved(tc[Last(path)], e, tc[e.dest])], queue + {e.dest}, path, k + 1)
  {
    var u, e := Last(path), p.g.edges[Last(path)][k];
    SumInRange(tc[u], e);
    SettledIsFinal(p, tc, queue, path, e);
    ImprovedHasWalk(p, tc, queue, path, k);
    KeepsPreset(p, tc, queue, path, e);
    hide Ordered, RootFirst, Closed, Explained, Final, Usable, HasWalk, NextHopsPreset;
    ImprovedInv(p, tc, queue, path, k, e.dest, Improved(tc[u], e, tc[e.dest]));
  }

  lemma KeepsPreset(p: Input, tc: Vertices, queue: set<Addr>, path: seq<Addr>, e: Edge)
    requires path != [] && RootFirst(p, tc, queue, path) && Last(path) in tc && e.dest in tc
    ensures |path| <= 1 && NextHopsPreset(p) ==> Improved(tc[Last(path)], e, tc[e.dest]).nextHop == tc[e.dest].nextHop
  {
  }

  lemma ImprovedInv(p: Input, tc: Vertices, queue: set<Addr>, path: seq<Addr>, k: nat, v: Addr, t: Entry)
    requires path != [] && Inv(p, tc, queue, path, k) && k < |p.g.edges[Last(path)]|
    requires v in tc && v !in path && HasWalk(p, v, t, |path|)
    requires |path| <= 1 && NextHopsPreset(p) ==> t.nextHop == tc[v].nextHop
    requires p.g.edges[Last(path)][k].dest == v && t.pathCost < tc[v].pathCost
    requires t.pathCost == NewCost(tc[Last(path)], p.g.edges[Last(path)][k])
    requires tc[Last(path)].pathCost <= t.pathCost < ROUTE_COST_BROKEN
    ensures Inv(p, tc[v := t], queue + {v}, path, k + 1)
  {
    hide NextHopsPreset, HasWalk;
    ImprovedPartition(p, tc, queue, path, v, t);
    ImprovedFinal(p, tc, path, v, t);
    hide Final;
    ImprovedOrdered(tc, queue, path, v, t);
    hide Ordered;
    ImprovedClosed(p.g, tc, path, k, t);
    hide Closed;
    ImprovedRootFirst(p, tc, queue, path, v, t);
    hide RootFirst;
    ImprovedExplained(p, tc, queue, path, v, t);
  }

  lemma ImprovedFinal(p: Input, tc: Vertices, path: seq<Addr>, v: Addr, t: Entry)
    requires (forall i :: 0 <= i < |path| ==> path[i] in tc) && Final(p, tc, path) && v !in path
    ensures Final(p, tc[v := t], path)
  {
  }

  lemma ImprovedPartition(p: Input, tc: Vertices, queue: set<Addr>, path: seq<Addr>, v: Addr, t: Entry)
    requires Partition(p, tc, queue, path) && v in tc && v !in path && t.pathCost < ROUTE_COST_BROKEN
    ensures Partition(p, tc[v := t], queue + {v}, path)
  {
  }

  lemma ImprovedOrdered(tc: Vertices, queue: set<Addr>, path: seq<Addr>, v: Addr, t: Entry)
    requires path != [] && queue <= tc.Keys && forall i :: 0 <= i < |path| ==> path[i] in tc
    requires Ordered(tc, queue, path) && v in tc && v !in path && tc[Last(path)].pathCost <= t.pathCost
    ensures Ordered(tc[v := t], queue + {v}, path)
  {
  }

  lemma ImprovedRootFirst(p: Input, tc: Vertices, queue: set<Addr>, path: seq<Addr>, v: Addr, t: Entry)
    requires RootFirst(p, tc, queue, path) && path != [] && v in tc
    requires |path| <= 1 && NextHopsPreset(p) ==> t.nextHop == tc[v].nextHop
    ensures RootFirst(p, tc[v := t], queue + {v}, path)
  {
  }

  lemma ImprovedClosed(g: Graph, tc: Vertices, path: seq<Addr>, k: nat, t: Entry)
    requires path != [] && Closed(g, tc, path, k)
    requires Last(path) in g.edges && Last(path) in tc && k < |g.edges[Last(path)]|
    requires var e := g.edges[Last(path)][k];
      e.dest !in path && e.dest in tc && t.pathCost <= tc[e.dest].pathCost
      && t.pathCost == NewCost(tc[Last(path)], e)
    ensures Closed(g, tc[g.edges[Last(path)][k].dest := t], path, k + 1)
  {
    var tc' := tc[g.edges[Last(path)][k].dest := t];
    forall i, j | 0 <= i < |path| && 0 <= j && EdgeClosed(g, tc, path[i], j)
      ensures EdgeClosed(g, tc', path[i], j)
    {
    }
    assert EdgeClosed(g, tc', Last(path), k);
  }

  lemma ImprovedExplained(p: Input, tc: Vertices, queue: set<Addr>, path: seq<Addr>, v: Addr, t: Entry)
    requires queue <= tc.Keys && forall i :: 0 <= i < |path| ==> path[i] in tc
    requires Explained(p, tc, queue, path) && v in tc && v !in path && HasWalk(p, v, t, |path|)
    ensures Explained(p, tc[v := t], queue + {v}, path)
  {
  }

  /** The walk to u, extended by the relaxed edge, explains the improved entry. */
  lemma ImprovedHasWalk(p: Input, tc: Vertices, queue: set<Addr>, path: seq<Addr>, k: nat)
    requires path != [] && Partition(p, tc, queue, path) && Explained(p, tc, queue, path)
    requires RootFirst(p, tc, queue, path) && k < |p.g.edges[Last(path)]|
    requires var e := p.g.edges[Last(path)][k];
      Usable(p.g, Last(path), e) && tc[Last(path)].pathCost + e.cost < ROUTE_COST_BROKEN && e.dest !in path
    ensures var e := p.g.edges[Last(path)][k];
      HasWalk(p, e.dest, Improved(tc[Last(path)], e, tc[e.dest]), |path|)
  {
    var n := |path| - 1;
    var u, e := path[n], p.g.edges[path[n]][k];
    assert HasWalk(p, u, tc[u], n);
    var w :| Explains(p, u, tc[u], w) && Hops(w) <= n;
    ExtendWalk(p, u, tc[u], w, e, tc[e.dest]);
    assert w.Start? ==> n == 0;
    assert Hops(Hop(w, e)) <= |path|;
  }

  lemma ExtendWalk(p: Input, u: Addr, t: Entry, w: Walk, e: Edge, was: Entry)
    requires Explains(p, u, t, w) && u in p.g.edges && e in p.g.edges[u] && Usable(p.g, u, e)
    requires t.pathCost + e.cost < ROUTE_COST_BROKEN && e.dest != p.root
    requires w.Start? && NextHopsPreset(p) ==> e.dest in p.pre && was.nextHop == p.pre[e.dest]
    ensures Explains(p, e.dest, Improved(t, e, was), Hop(w, e))
  {
  }

  /** Walk w shows that the path cost of its end has fallen below its distance. */
  ghost predicate Spoils(p: Input, tc: Vertices, w: Walk) {
    IsShortest(p.g, p.root, w) && End(p.root, w) in tc && tc[End(p.root, w)].pathCost < Cost(w)
  }

  ghost predicate Spoiled(p: Input, tc: Vertices) {
    exists w :: Spoils(p, tc, w)
  }

  /** A wrapped sum improves nothing but what is better already: whenever it replaces a path
      cost, it is below the distance. */
  lemma WrapSpoils(p: Input, tc: Vertices, queue: set<Addr>, path: seq<Addr>, k: nat, t: Entry)
    requires path != [] && Inv(p, tc, queue, path, k) && k < |p.g.edges[Last(path)]|
    requires var e := p.g.edges[Last(path)][k];
      && Usable(p.g, Last(path), e) && tc[Last(path)].pathCost + e.cost >= COST_MODULUS
      && t.pathCost == NewCost(tc[Last(path)], e) < tc[e.dest].pathCost
    ensures Spoiled(p, tc[p.g.edges[Last(path)][k].dest := t]) && !Harmless(p.g, p.root)
  {
    hide Ordered, RootFirst, Closed, Harmless, Usable, Spoiled;
    var u, e := Last(path), p.g.edges[Last(path)][k];
    var w := SettledWalk(p, tc, queue, path, u);
    hide Explained, Final, NextHopsPreset, RightNextHop;
    UsableEnds(p.g, u, e);
    var v := FarWalk(p, tc, queue, path, w, e);
    SpoilsAt(p, tc, e.dest, t, v);
    HarmAt(p, w, e, v);
  }

  lemma UsableEnds(g: Graph, u: Addr, e: Edge)
    requires Usable(g, u, e)
    ensures e.dest in g.edges
  {
  }

  /** The distance of the far end is more than a wrapped sum that improves it. */
  lemma FarWalk(p: Input, tc: Vertices, queue: set<Addr>, path: seq<Addr>, w: Walk, e: Edge) returns (v: Walk)
    requires path != [] && Partition(p, tc, queue, path) && Final(p, tc, path)
    requires IsWalk(p.g, p.root, w) && End(p.root, w) == Last(path) && Cost(w) == tc[Last(path)].pathCost
    requires e in p.g.edges[Last(path)] && Usable(p.g, Last(path), e) && e.dest in tc
    requires tc[Last(path)].pathCost + e.cost >= COST_MODULUS && NewCost(tc[Last(path)], e) < tc[e.dest].pathCost
    ensures IsShortest(p.g, p.root, v) && End(p.root, v) == e.dest && NewCost(tc[Last(path)], e) < Cost(v)
  {
    assert IsWalk(p.g, p.root, Hop(w, e));
    v := ShortestExists(p.g, p.root, Hop(w, e));
    SumWraps(tc[Last(path)], e);
    FinalAt(p, tc, path, v);
  }

  lemma FinalAt(p: Input, tc: Vertices, path: seq<Addr>, w: Walk)
    requires path != [] && (forall i :: 0 <= i < |path| ==> path[i] in tc) && Final(p, tc, path) &&
      IsWalk(p.g, p.root, w)
    ensures if End(p.root, w) in path then tc[End(p.root, w)].pathCost <= Cost(w)
      else tc[Last(path)].pathCost <= Cost(w)
  {
  }

  lemma SpoilsAt(p: Input, tc: Vertices, a: Addr, t: Entry, v: Walk)
    requires IsShortest(p.g, p.root, v) && End(p.root, v) == a && t.pathCost < Cost(v)
    ensures Spoiled(p, tc[a := t])
  {
    assert Spoils(p, tc[a := t], v);
  }

  lemma HarmAt(p: Input, w: Walk, e: Edge, v: Walk)
    requires IsShortest(p.g, p.root, w) && e in p.g.edges[End(p.root, w)] && Usable(p.g, End(p.root, w), e)
    requires IsShortest(p.g, p.root, v) && End(p.root, v) == e.dest && (Cost(w) + e.cost) % COST_MODULUS < Cost(v)
    ensures !Harmless(p.g, p.root)
  {
    hide IsShortest, Usable, IsWalk;
  }

  /** The walk that explains a settled vertex is a shortest one. */
  lemma SettledWalk(p: Input, tc: Vertices, queue: set<Addr>, path: seq<Addr>, u: Addr) returns (w: Walk)
    requires Partition(p, tc, queue, path) && Explained(p, tc, queue, path) && Final(p, tc, path) && u in path
    ensures Explains(p, u, tc[u], w) && IsShortest(p.g, p.root, w)
  {
    var i :| 0 <= i < |path| && path[i] == u;
    assert HasWalk(p, u, tc[u], i);
    w :| Explains(p, u, tc[u], w) && Hops(w) <= i;
  }

  /** The outcome of a finished run. */
  ghost predicate Correct(p: Input, tc: Vertices, path: seq<Addr>) {
    && tc.Keys == p.g.edges.Keys
    // No walk is cheaper than the path cost of its end.
    && (forall w :: IsWalk(p.g, p.root, w) ==> End(p.root, w) in tc && tc[End(p.root, w)].pathCost <= Cost(w))
    // The path list holds the end of every walk once, nearest first.
    && (forall w :: IsWalk(p.g, p.root, w) ==> End(p.root, w) in path)
    && (forall i, j :: 0 <= i < j < |path| ==> path[i] != path[j])
    && (forall i :: 0 <= i < |path| ==> path[i] in tc)
    && (forall i, j :: 0 <= i < j < |path| ==> tc[path[i]].pathCost <= tc[path[j]].pathCost)
    // A vertex on it has the cost, hop count and next hop of one walk; any other has none.
    && (forall a :: a in path ==> HasWalk(p, a, tc[a], |p.g.edges| - 1))
    && (forall a :: a in tc ==> if a in path then tc[a].pathCost < ROUTE_COST_BROKEN
      else tc[a].pathCost == ROUTE_COST_BROKEN)
  }

  /** When no candidate is left the run is correct, unless wrap-around does harm. */
  lemma Finish(p: Input, tc: Vertices, path: seq<Addr>)
    requires Between(p, tc, {}, path) && Harmless(p.g, p.root)
    ensures Correct(p, tc, path)
  {
    forall w | IsWalk(p.g, p.root, w)
      ensures End(p.root, w) in path && tc[End(p.root, w)].pathCost <= Cost(w)
    {
      ReachedAtEnd(p, tc, path, w);
    }
    PathFits(p.g, path);
    forall a | a in path
      ensures HasWalk(p, a, tc[a], |p.g.edges| - 1)
    {
      var i :| 0 <= i < |path| && path[i] == a;
      assert HasWalk(p, a, tc[a], i);
      var w :| Explains(p, a, tc[a], w) && Hops(w) <= i;
    }
  }

  lemma ReachedAtEnd(p: Input, tc: Vertices, path: seq<Addr>, w: Walk)
    requires Between(p, tc, {}, path) && Harmless(p.g, p.root) && IsWalk(p.g, p.root, w)
    ensures End(p.root, w) in path && tc[End(p.root, w)].pathCost <= Cost(w)
  {
    hide Inv;
    var v := ShortestExists(p.g, p.root, w);
    Frontier(p, tc, {}, path, v);
  }

  /** No path cost of a correct run is below the distance. */
  lemma SpoiledIsWrong(p: Input, tc: Vertices, path: seq<Addr>)
    requires Spoiled(p, tc)
    ensures !Correct(p, tc, path)
  {
    if Correct(p, tc, path) {
      var w :| Spoils(p, tc, w);
      var v := WalkOf(p, tc, path, End(p.root, w));
      assert false;
    }
  }

  /** A correct run shows that wrap-around does no harm. */
  lemma CorrectIsHarmless(p: Input, tc: Vertices, path: seq<Addr>)
    requires Between(p, tc, {}, path) && Correct(p, tc, path)
    ensures Harmless(p.g, p.root)
  {
    hide Inv, Correct, Usable;
    forall w | IsShortest(p.g, p.root, w)
      ensures Cost(w) < ROUTE_COST_BROKEN
    {
      ExactAtEnd(p, tc, path, w);
    }
    forall w, e, v | IsShortest(p.g, p.root, w) && e in p.g.edges[End(p.root, w)] && Usable(p.g, End(p.root, w), e)
                     && IsShortest(p.g, p.root, v) && End(p.root, v) == e.dest
      ensures Cost(v) <= (Cost(w) + e.cost) % COST_MODULUS
    {
      SumAtEnd(p, tc, path, w, e, v);
    }
  }

  lemma SumAtEnd(p: Input, tc: Vertices, path: seq<Addr>, w: Walk, e: Edge, v: Walk)
    requires Between(p, tc, {}, path) && Correct(p, tc, path) && IsShortest(p.g, p.root, w)
    requires e in p.g.edges[End(p.root, w)] && Usable(p.g, End(p.root, w), e)
    requires IsShortest(p.g, p.root, v) && End(p.root, v) == e.dest
    ensures Cost(v) <= (Cost(w) + e.cost) % COST_MODULUS
  {
    hide Inv, Correct, Usable, IsShortest;
    ExactAtEnd(p, tc, path, w);
    ExactAtEnd(p, tc, path, v);
    ClosedAtEnd(p, tc, path, End(p.root, w), e);
  }

  lemma ExactAtEnd(p: Input, tc: Vertices, path: seq<Addr>, w: Walk)
    requires Correct(p, tc, path) && IsShortest(p.g, p.root, w)
    ensures End(p.root, w) in path && End(p.root, w) in tc && Cost(w) == tc[End(p.root, w)].pathCost < ROUTE_COST_BROKEN
  {
    var v := WalkOf(p, tc, path, End(p.root, w));
  }

  lemma ClosedAtEnd(p: Input, tc: Vertices, path: seq<Addr>, u: Addr, e: Edge)
    requires Between(p, tc, {}, path) && u in path && u in p.g.edges && e in p.g.edges[u] && Usable(p.g, u, e)
    ensures u in tc && e.dest in tc && tc[e.dest].pathCost <= NewCost(tc[u], e)
  {
    hide Ordered, RootFirst, Explained, Final;
    var i :| 0 <= i < |path| && path[i] == u;
    var j :| 0 <= j < |p.g.edges[u]| && p.g.edges[u][j] == e;
    assert EdgeClosed(p.g, tc, path[i], j);
  }

  ghost function Elems(path: seq<Addr>): set<Addr> {
    set a | a in path
  }

  lemma PathFits(g: Graph, path: seq<Addr>)
    requires forall i :: 0 <= i < |path| ==> path[i] in g.edges
    requires forall i, j :: 0 <= i < j < |path| ==> path[i] != path[j]
    ensures |path| <= |g.edges|
  {
    DistinctSize(path);
    SubsetSize(Elems(path), g.edges.Keys);
  }

  lemma {:induction false} DistinctSize(path: seq<Addr>)
    requires forall i, j :: 0 <= i < j < |path| ==> path[i] != path[j]
    ensures |Elems(path)| == |path|
  {
    if path != [] {
      var init := path[..|path| - 1];
      DistinctSize(init);
      assert path == init + [Last(path)] && Last(path) !in init;
      assert Elems(path) == Elems(init) + {Last(path)};
    }
  }

  /** Whatever ties they broke and whichever queue they used, two finished runs agree. */
  lemma RunsAgree(p: Input, tc: Vertices, path: seq<Addr>, tc': Vertices, path': seq<Addr>)
    requires Correct(p, tc, path) && Correct(p, tc', path')
    ensures forall a :: a in tc ==> a in tc' && tc[a].pathCost == tc'[a].pathCost
    ensures forall a :: a in path <==> a in path'
  {
    forall a | a in tc
      ensures tc[a].pathCost == tc'[a].pathCost
    {
      Below(p, tc, path, tc', path', a);
      Below(p, tc', path', tc, path, a);
    }
  }

  lemma Below(p: Input, tc: Vertices, path: seq<Addr>, tc': Vertices, path': seq<Addr>, a: Addr)
    requires Correct(p, tc, path) && Correct(p, tc', path') && a in tc
    ensures tc[a].pathCost <= tc'[a].pathCost
  {
    if a in path' {
      assert HasWalk(p, a, tc'[a], |p.g.edges| - 1);
      var w :| Explains(p, a, tc'[a], w) && Hops(w) <= |p.g.edges| - 1;
      assert tc[End(p.root, w)].pathCost <= Cost(w);
    }
  }

  /** A route follows a shortest walk: its first edge leads to the neighbour behind the
      recorded next hop, and its length is the hop count as far as 8 bits can tell. */
  lemma RoutesFollowShortestWalks(p: Input, tc: Vertices, path: seq<Addr>, a: Addr) returns (w: Walk)
    requires Correct(p, tc, path) && NextHopsPreset(p) && a in path && a != p.root
    ensures IsShortest(p.g, p.root, w) && End(p.root, w) == a && Cost(w) == tc[a].pathCost
    ensures w.Hop? && FirstHop(w) in p.pre && tc[a].nextHop == p.pre[FirstHop(w)]
    ensures tc[a].hops == Hops(w) % 256 && (|p.g.edges| <= 256 ==> tc[a].hops == Hops(w))
  {
    w := WalkOf(p, tc, path, a);
    CorrectIsShortest(p, tc, path, a, w);
    hide Correct, IsShortest, NextHopsPreset;
    assert w.Hop?;
  }

  /** A link that can be used in both directions: neither end is unknown, each has an edge to the
      other, and the cost towards the far end is not that of a broken link. */
  ghost predicate TwoWay(g: Graph, u: Addr, e: Edge) {
    && u in g.edges && e in g.edges[u] && e.cost != LINK_COST_BROKEN
    && e.dest in g.edges && exists back :: back in g.edges[e.dest] && back.dest == u
  }

  /** There are no dead ends: every vertex that is routed to is entered over a link from another
      one that is, which has the rest of its path cost, and there is an edge back. */
  lemma EnteredBothWays(p: Input, tc: Vertices, path: seq<Addr>, a: Addr) returns (u: Addr, e: Edge)
    requires Correct(p, tc, path) && a in path && a != p.root
    ensures u in path && u in tc && a in tc && TwoWay(p.g, u, e) && e.dest == a
    ensures tc[a].pathCost == tc[u].pathCost + e.cost
  {
    var w := WalkOf(p, tc, path, a);
    CorrectIsShortest(p, tc, path, a, w);
    u, e := End(p.root, w.prefix), w.e;
    PrefixIsShortest(p.g, p.root, w);
    ExactAtEnd(p, tc, path, w.prefix);
    hide Correct, NextHopsPreset, IsShortest;
    var i :| 0 <= i < |p.g.edges[a]| && p.g.edges[a][i].dest == u;
    assert p.g.edges[a][i] in p.g.edges[a];
  }

  /** And every such link out of a vertex that is routed to leads to one that is, no further away
      than the link allows. */
  lemma LeftBothWays(p: Input, tc: Vertices, path: seq<Addr>, u: Addr, e: Edge)
    requires Correct(p, tc, path) && u in path && TwoWay(p.g, u, e)
    ensures u in tc && e.dest in path && e.dest in tc && tc[e.dest].pathCost <= tc[u].pathCost + e.cost
  {
    var w := WalkOf(p, tc, path, u);
    var back :| back in p.g.edges[e.dest] && back.dest == u;
    var i :| 0 <= i < |p.g.edges[e.dest]| && p.g.edges[e.dest][i] == back;
    assert Usable(p.g, u, e);
    assert IsWalk(p.g, p.root, Hop(w, e));
  }

  /** On a line of more than 256 vertices the vertex 256 hops away is recorded with none. */
  lemma HopsWrap(p: Input, n: nat, c: LinkCost, tc: Vertices, path: seq<Addr>)
    requires 0 < c < LINK_COST_BROKEN && p.g == Line(n, c) && p.root == 0 && n > 256 && Correct(p, tc, path)
    ensures 256 in path && 256 in tc && tc[256].hops == 0
    ensures forall w :: IsShortest(p.g, 0, w) && End(0, w) == 256 ==> Hops(w) == 256
  {
    hide Correct, Line, IsShortest, NextHopsPreset, RightNextHop;
    LineReached(p, n, c, tc, path, 256);
    var v := WalkOf(p, tc, path, 256);
    CorrectIsShortest(p, tc, path, 256, v);
    LineShortest(n, c, v);
    forall w | IsShortest(p.g, 0, w) && End(0, w) == 256
      ensures Hops(w) == 256
    {
      LineShortest(n, c, w);
    }
  }

  lemma LineReached(p: Input, n: nat, c: LinkCost, tc: Vertices, path: seq<Addr>, u: Addr)
    requires c < LINK_COST_BROKEN && p.g == Line(n, c) && p.root == 0 && u < n && Correct(p, tc, path)
    ensures u in path
  {
    hide Line, HasWalk;
    var w := LineWalk(n, c, u);
  }

  lemma WalkOf(p: Input, tc: Vertices, path: seq<Addr>, a: Addr) returns (w: Walk)
    requires Correct(p, tc, path) && a in path
    ensures a in tc && Explains(p, a, tc[a], w) && Hops(w) < |p.g.edges|
  {
    assert HasWalk(p, a, tc[a], |p.g.edges| - 1);
    w :| Explains(p, a, tc[a], w) && Hops(w) <= |p.g.edges| - 1;
  }

  lemma CorrectIsShortest(p: Input, tc: Vertices, path: seq<Addr>, a: Addr, w: Walk)
    requires Correct(p, tc, path) && a in tc && Explains(p, a, tc[a], w)
    ensures IsShortest(p.g, p.root, w)
  {
    hide NextHopsPreset, HasWalk;
  }

  /** The vertices, the candidate queue with its keys, and the path list. */
  datatype State = State(tc: Vertices, cand: map<Addr, nat>, path: seq<Addr>)

  ghost predicate KeysMatch(s: State) {
    forall a :: a in s.cand ==> a in s.tc && s.cand[a] == s.tc[a].pathCost
  }

  /** What holds between two passes of the main loop whatever the sums do. */
  ghost predicate Sound(p: Input, s: State) {
    KeysMatch(s) && Partition(p, s.tc, s.cand.Keys, s.path)
  }

  /** Between two passes of the main loop, as long as no sum did harm. */
  ghost predicate Valid(p: Input, s: State) {
    KeysMatch(s) && Between(p, s.tc, s.cand.Keys, s.path)
  }

  /** A run keeps its invariant until a wrapped sum spoils it for good, and that happens only
      where wrap-around does harm. */
  ghost predicate Lawful(p: Input, s: State) {
    && Sound(p, s)
    && (Valid(p, s) || Spoiled(p, s.tc))
    && (Harmless(p.g, p.root) ==> Valid(p, s))
  }

  /** The same while vertex u is being relaxed; an AVL tree still holds it, a heap does not. */
  ghost predicate RelaxingSound(p: Input, s: State, u: Addr) {
    KeysMatch(s) && Partition(p, s.tc, s.cand.Keys - {u}, s.path + [u])
  }

  ghost predicate Relaxing(p: Input, s: State, u: Addr, k: nat) {
    KeysMatch(s) && Inv(p, s.tc, s.cand.Keys - {u}, s.path + [u], k)
  }

  ghost predicate RelaxingLawful(p: Input, s: State, u: Addr, k: nat) {
    && RelaxingSound(p, s, u)
    && (Relaxing(p, s, u, k) || Spoiled(p, s.tc))
    && (Harmless(p.g, p.root) ==> Relaxing(p, s, u, k))
  }

  /** The queue after the path cost of v fell: a vertex that has never been reached joins it,
      a candidate moves up, and a settled vertex stays out. */
  function Requeue(s: State, v: Addr, newCost: nat): map<Addr, nat>
    requires v in s.tc
  {
    if v in s.cand || s.tc[v].pathCost >= ROUTE_COST_BROKEN then s.cand[v := newCost] else s.cand
  }

  /** The effect of relaxing edge e of vertex u. */
  function RelaxEdge(g: Graph, s: State, u: Addr, e: Edge): State {
    if u in s.tc && e.dest in s.tc && Usable(g, u, e) && NewCost(s.tc[u], e) < s.tc[e.dest].pathCost then
      s.(tc := s.tc[e.dest := Improved(s.tc[u], e, s.tc[e.dest])], cand := Requeue(s, e.dest, NewCost(s.tc[u], e)))
    else s
  }

  /** The effect of relaxing the first k edges of vertex u. */
  function RelaxEdges(g: Graph, s: State, u: Addr, k: nat): State
    requires u in g.edges && k <= |g.edges[u]|
  {
    if k == 0 then s else RelaxEdge(g, RelaxEdges(g, s, u, k - 1), u, g.edges[u][k - 1])
  }

  lemma Domain(p: Input, s: State, u: Addr)
    requires RelaxingSound(p, s, u)
    ensures s.tc.Keys == p.g.edges.Keys && u in s.tc && Last(s.path + [u]) == u && s.cand.Keys <= s.tc.Keys
    ensures s.tc[u].pathCost < ROUTE_COST_BROKEN
    ensures forall v :: v in s.cand ==> s.cand[v] == s.tc[v].pathCost < ROUTE_COST_BROKEN
  {
    var path' := s.path + [u];
    assert Last(path') == u && u in path';
    forall v | v in s.cand
      ensures s.tc[v].pathCost < ROUTE_COST_BROKEN
    {
      assert v == u || v in s.cand.Keys - {u};
    }
  }

  lemma LawfulDomain(p: Input, s: State, u: Addr, k: nat)
    requires RelaxingLawful(p, s, u, k)
    ensures s.tc.Keys == p.g.edges.Keys && u in s.tc
    ensures forall v :: v in s.cand ==> v in s.tc && s.cand[v] == s.tc[v].pathCost < ROUTE_COST_BROKEN
  {
    Domain(p, s, u);
  }

  /** A relaxed edge moves no vertex into the queue that was settled before. */
  lemma RelaxEdgeSound(p: Input, s: State, u: Addr, e: Edge)
    requires RelaxingSound(p, s, u)
    ensures var s' := RelaxEdge(p.g, s, u, e);
      RelaxingSound(p, s', u) && s'.path == s.path && (u in s'.cand <==> u in s.cand)
  {
    Domain(p, s, u);
    var s' := RelaxEdge(p.g, s, u, e);
    assert s'.tc.Keys == s.tc.Keys;
  }

  lemma RelaxEdgeSpoiled(p: Input, s: State, u: Addr, e: Edge)
    requires Spoiled(p, s.tc)
    ensures Spoiled(p, RelaxEdge(p.g, s, u, e).tc)
  {
    var w :| Spoils(p, s.tc, w);
    assert Spoils(p, RelaxEdge(p.g, s, u, e).tc, w);
  }

  /** Relaxing an edge keeps the invariant or spoils a path cost, the latter only where
      wrap-around does harm. */
  lemma RelaxEdgeKeeps(p: Input, s: State, u: Addr, k: nat)
    requires Relaxing(p, s, u, k) && RelaxingSound(p, s, u) && u in p.g.edges && k < |p.g.edges[u]|
    ensures var s' := RelaxEdge(p.g, s, u, p.g.edges[u][k]);
      Relaxing(p, s', u, k + 1) || (Spoiled(p, s'.tc) && !Harmless(p.g, p.root))
  {
    var e := p.g.edges[u][k];
    Domain(p, s, u);
    hide Inv, Spoiled, Harmless, RelaxingSound, KeysMatch, Usable, Requeue, Improved;
    if Usable(p.g, u, e) && NewCost(s.tc[u], e) < s.tc[e.dest].pathCost {
      if s.tc[u].pathCost + e.cost < COST_MODULUS {
        RelaxEdgeImproves(p, s, u, k);
      } else {
        WrapSpoils(p, s.tc, s.cand.Keys - {u}, s.path + [u], k, Improved(s.tc[u], e, s.tc[e.dest]));
      }
    } else {
      RelaxNothing(p, s.tc, s.cand.Keys - {u}, s.path + [u], k);
    }
  }

  lemma RelaxEdgeImproves(p: Input, s: State, u: Addr, k: nat)
    requires Relaxing(p, s, u, k) && RelaxingSound(p, s, u) && u in p.g.edges && k < |p.g.edges[u]|
    requires s.tc.Keys == p.g.edges.Keys
    requires var e := p.g.edges[u][k];
      Usable(p.g, u, e) && s.tc[u].pathCost + e.cost < COST_MODULUS && NewCost(s.tc[u], e) < s.tc[e.dest].pathCost
    ensures Relaxing(p, RelaxEdge(p.g, s, u, p.g.edges[u][k]), u, k + 1)
  {
    var e := p.g.edges[u][k];
    Domain(p, s, u);
    UsableEnds(p.g, u, e);
    QueuedIfReached(p, s, u, k);
    ImprovedState(p.g, s, u, e);
    hide RelaxingSound, Usable, Inv, RelaxEdge, NewCost, Improved, KeysMatch;
    RelaxImproves(p, s.tc, s.cand.Keys - {u}, s.path + [u], k);
  }

  lemma ImprovedState(g: Graph, s: State, u: Addr, e: Edge)
    requires u in s.tc && e.dest in s.tc && Usable(g, u, e) && NewCost(s.tc[u], e) < s.tc[e.dest].pathCost
    requires e.dest != u && (e.dest in s.cand <==> s.tc[e.dest].pathCost < ROUTE_COST_BROKEN)
    ensures var s' := RelaxEdge(g, s, u, e);
      && s'.tc == s.tc[e.dest := Improved(s.tc[u], e, s.tc[e.dest])] && s'.path == s.path
      && s'.cand.Keys - {u} == s.cand.Keys - {u} + {e.dest}
      && (KeysMatch(s) ==> KeysMatch(s'))
  {
    hide Usable, NewCost;
  }

  lemma RelaxEdgeLawful(p: Input, s: State, u: Addr, k: nat)
    requires RelaxingLawful(p, s, u, k) && u in p.g.edges && k < |p.g.edges[u]|
    ensures var s' := RelaxEdge(p.g, s, u, p.g.edges[u][k]);
      RelaxingLawful(p, s', u, k + 1) && s'.path == s.path && (u in s'.cand <==> u in s.cand)
  {
    hide Relaxing, RelaxingSound, Spoiled, Harmless, RelaxEdge;
    RelaxEdgeSound(p, s, u, p.g.edges[u][k]);
    if Relaxing(p, s, u, k) {
      RelaxEdgeKeeps(p, s, u, k);
    } else {
      RelaxEdgeSpoiled(p, s, u, p.g.edges[u][k]);
    }
  }

  lemma {:induction false} RelaxEdgesKeeps(p: Input, s: State, u: Addr, k: nat)
    requires RelaxingLawful(p, s, u, 0) && u in p.g.edges && k <= |p.g.edges[u]|
    ensures var s' := RelaxEdges(p.g, s, u, k);
      RelaxingLawful(p, s', u, k) && s'.path == s.path && (u in s'.cand <==> u in s.cand)
  {
    hide RelaxingLawful, RelaxEdge;
    if k > 0 {
      RelaxEdgesKeeps(p, s, u, k - 1);
      RelaxEdgeLawful(p, RelaxEdges(p.g, s, u, k - 1), u, k - 1);
    }
  }

  /** The queue holds exactly the improvable vertices that already have a path cost, so a
      decrease of a key always finds its vertex in the queue. */
  lemma QueuedIfReached(p: Input, s: State, u: Addr, k: nat)
    requires Relaxing(p, s, u, k) && u in p.g.edges && k < |p.g.edges[u]| && s.tc.Keys == p.g.edges.Keys
    requires var e := p.g.edges[u][k];
      Usable(p.g, u, e) && s.tc[u].pathCost + e.cost < COST_MODULUS && NewCost(s.tc[u], e) < s.tc[e.dest].pathCost
    ensures var v := p.g.edges[u][k].dest;
      v != u && (v in s.cand <==> s.tc[v].pathCost < ROUTE_COST_BROKEN)
  {
    var path' := s.path + [u];
    assert Last(path') == u && u in path';
    SettledIsFinal(p, s.tc, s.cand.Keys - {u}, path', p.g.edges[u][k]);
  }

  /** Relaxing edge e of u would lower the key of a vertex that has a path cost and is not in
      the queue. */
  predicate Missing(g: Graph, s: State, u: Addr, e: Edge) {
    && u in s.tc && e.dest in s.tc && Usable(g, u, e) && e.dest !in s.cand
    && NewCost(s.tc[u], e) < s.tc[e.dest].pathCost < ROUTE_COST_BROKEN
  }

  /** That happens at edge k, after the edges before it were relaxed. */
  ghost predicate MissingAt(g: Graph, s: State, u: Addr, k: nat) {
    u in g.edges && k < |g.edges[u]| && Missing(g, RelaxEdges(g, s, u, k), u, g.edges[u][k])
  }

  /** That happens only where wrap-around does harm. */
  lemma MissingIsHarm(p: Input, s: State, u: Addr, k: nat)
    requires RelaxingLawful(p, s, u, k) && u in p.g.edges && k < |p.g.edges[u]| && Missing(p.g, s, u, p.g.edges[u][k])
    ensures !Harmless(p.g, p.root)
  {
    Domain(p, s, u);
    hide Relaxing, RelaxingSound, Spoiled, Harmless, Usable;
    if Harmless(p.g, p.root) {
      HarmlessIsQueued(p, s, u, k);
      assert false;
    }
  }

  /** Where wrap-around does no harm, no wrapped sum improves anything. */
  lemma HarmlessIsQueued(p: Input, s: State, u: Addr, k: nat)
    requires Relaxing(p, s, u, k) && u in p.g.edges && k < |p.g.edges[u]| && s.tc.Keys == p.g.edges.Keys
    requires Harmless(p.g, p.root)
    requires var e := p.g.edges[u][k]; Usable(p.g, u, e) && NewCost(s.tc[u], e) < s.tc[e.dest].pathCost
    ensures var v := p.g.edges[u][k].dest; v in s.cand <==> s.tc[v].pathCost < ROUTE_COST_BROKEN
  {
    hide Inv, Harmless, Spoiled;
    var e := p.g.edges[u][k];
    assert Last(s.path + [u]) == u;
    if s.tc[u].pathCost + e.cost < COST_MODULUS {
      QueuedIfReached(p, s, u, k);
    } else {
      WrapSpoils(p, s.tc, s.cand.Keys - {u}, s.path + [u], k, Improved(s.tc[u], e, s.tc[e.dest]));
      assert false;
    }
  }

  /** Once vertex 1024 of such a line is settled, so is its neighbour, both at their distances. */
  lemma LineDistances(p: Input, n: nat, s: State)
    requires p.g == Line(n, LINK_COST_BROKEN - 1) && p.root == 0 && n > 1024 && Relaxing(p, s, 1024, 0)
    ensures 1023 in s.path && 1023 in s.tc && s.tc[1023].pathCost == 1023 * (LINK_COST_BROKEN - 1)
    ensures 1024 in s.tc && s.tc[1024].pathCost == 1024 * (LINK_COST_BROKEN - 1)
  {
    hide Line, IsShortest, Usable, Harmless, Partition, Closed, Ordered, RootFirst;
    var c, path' := LINK_COST_BROKEN - 1, s.path + [1024];
    assert Last(path') == 1024;
    LineSettled(p, n, c, s.tc, s.cand.Keys - {1024}, path', 1024);
    var w := LineWalk(n, c, 1023);
    assert 1023 in path';
    LineSettled(p, n, c, s.tc, s.cand.Keys - {1024}, path', 1023);
  }

  lemma LineSettled(p: Input, n: nat, c: LinkCost, tc: Vertices, queue: set<Addr>, path: seq<Addr>, u: Addr)
    requires 0 < c < LINK_COST_BROKEN && p.g == Line(n, c) && p.root == 0 && u < n && u in path
    requires Partition(p, tc, queue, path) && Explained(p, tc, queue, path) && Final(p, tc, path)
    ensures u in tc && tc[u].pathCost == u * c
  {
    var w := SettledWalk(p, tc, queue, path, u);
    LineShortest(n, c, w);
  }

  lemma LineBack(n: nat, c: LinkCost, u: Addr)
    requires 0 < u < n && c < LINK_COST_BROKEN
    ensures u in Line(n, c).edges && Line(n, c).edges[u] != []
    ensures Line(n, c).edges[u][0] == Edge(u - 1, c) && Usable(Line(n, c), u, Edge(u - 1, c))
  {
    assert Line(n, c).edges[u] == LineEdges(n, c, u);
    LineUsable(n, c, u, LineEdges(n, c, u)[0]);
  }

  /** On a line of more than 1024 vertices with the highest costs, the edge back out of vertex
      1024 gives its settled neighbour less than the cost of one hop. */
  lemma LineIsSpoiled(p: Input, n: nat, s: State)
    requires p.g == Line(n, LINK_COST_BROKEN - 1) && p.root == 0 && n > 1024 && Relaxing(p, s, 1024, 0)
    ensures 1023 in s.path && 1023 in s.tc && s.tc[1023].pathCost == 1023 * (LINK_COST_BROKEN - 1)
    ensures 1024 in p.g.edges && p.g.edges[1024] != []
    ensures var s' := RelaxEdge(p.g, s, 1024, p.g.edges[1024][0]);
      1023 in s'.tc && s'.tc[1023].pathCost == 4193279
  {
    hide Line, IsShortest, Usable, Harmless;
    LineDistances(p, n, s);
    LineBack(n, LINK_COST_BROKEN - 1, 1024);
    BackSum(s.tc[1024]);
    hide NewCost;
    assert s.tc[1023].pathCost > 4193279;
  }

  lemma BackSum(t: Entry)
    requires t.pathCost == 1024 * (LINK_COST_BROKEN - 1)
    ensures NewCost(t, Edge(1023, LINK_COST_BROKEN - 1)) == 4193279
  {
  }

  /** The state once u has been taken from the queue for relaxation. */
  function Taken(s: State, u: Addr, binaryHeap: bool): State {
    if binaryHeap then s.(cand := s.cand - {u}) else s
  }

  /** One pass of the main loop over the cheapest candidate u. */
  function Pass(g: Graph, s: State, u: Addr, binaryHeap: bool): State
    requires u in g.edges
  {
    var r := RelaxEdges(g, Taken(s, u, binaryHeap), u, |g.edges[u]|);
    State(r.tc, if binaryHeap then r.cand else r.cand - {u}, r.path + [u])
  }

  lemma PassStarts(p: Input, s: State, u: Addr, binaryHeap: bool)
    requires Lawful(p, s) && Cheapest(s.tc, s.cand.Keys, u)
    ensures var t := Taken(s, u, binaryHeap);
      RelaxingLawful(p, t, u, 0) && (u in t.cand <==> !binaryHeap)
  {
    hide Inv, Between, Harmless, Spoiled, Partition, Cheapest;
    var t := Taken(s, u, binaryHeap);
    assert t.cand.Keys - {u} == s.cand.Keys - {u};
    IsQueued(s, u);
    SettlePartition(p, s.tc, s.cand.Keys, s.path, u);
    if Valid(p, s) {
      Settle(p, s.tc, s.cand.Keys, s.path, u);
    }
  }

  lemma IsQueued(s: State, u: Addr)
    requires s.cand.Keys <= s.tc.Keys && Cheapest(s.tc, s.cand.Keys, u)
    ensures u in s.cand
  {
  }

  lemma PassEnds(p: Input, r: State, u: Addr, binaryHeap: bool)
    requires RelaxingLawful(p, r, u, LastDegree(p.g, r.path + [u])) && (u in r.cand <==> !binaryHeap)
    ensures Lawful(p, State(r.tc, if binaryHeap then r.cand else r.cand - {u}, r.path + [u]))
  {
    hide Inv, Harmless, Spoiled, Partition, LastDegree;
    var s := State(r.tc, if binaryHeap then r.cand else r.cand - {u}, r.path + [u]);
    assert s.cand.Keys == r.cand.Keys - {u};
  }

  /** A pass keeps the law, whichever cheapest candidate the queue chose. */
  lemma PassKeeps(p: Input, s: State, u: Addr, binaryHeap: bool)
    requires Lawful(p, s) && Cheapest(s.tc, s.cand.Keys, u) && u in p.g.edges
    ensures Lawful(p, Pass(p.g, s, u, binaryHeap)) && Pass(p.g, s, u, binaryHeap).path == s.path + [u]
  {
    hide Lawful, RelaxingLawful, RelaxEdges, Cheapest;
    PassStarts(p, s, u, binaryHeap);
    var t, n := Taken(s, u, binaryHeap), |p.g.edges[u]|;
    RelaxEdgesKeeps(p, t, u, n);
    var r := RelaxEdges(p.g, t, u, n);
    assert Last(r.path + [u]) == u;
    PassEnds(p, r, u, binaryHeap);
  }

  /** A finished run is correct exactly where wrap-around does no harm. */
  lemma CorrectIffHarmless(p: Input, s: State)
    requires Lawful(p, s) && s.cand == map[]
    ensures Correct(p, s.tc, s.path) <==> Harmless(p.g, p.root)
  {
    hide Correct, Harmless, Between, Spoiled, Partition;
    assert s.cand.Keys == {};
    if Harmless(p.g, p.root) {
      Finish(p, s.tc, s.path);
    } else if Spoiled(p, s.tc) {
      SpoiledIsWrong(p, s.tc, s.path);
    } else if Correct(p, s.tc, s.path) {
      CorrectIsHarmless(p, s.tc, s.path);
    }
  }

  /** The state before the first pass: every vertex has an infinite cost and its preset next
      hop, our own cost is zero, and we are the only candidate. */
  function Initial(p: Input): State
    requires p.g.edges.Keys <= p.pre.Keys
  {
    var tc := map a | a in p.g.edges :: Entry(if a == p.root then 0 else ROUTE_COST_BROKEN, 0, p.pre[a]);
    State(tc, map[p.root := 0], [])
  }

  lemma InitialLawful(p: Input)
    requires p.g.edges.Keys <= p.pre.Keys && p.root in p.g.edges
    ensures Lawful(p, Initial(p))
  {
    hide Spoiled, Harmless;
    var t := Initial(p).tc[p.root];
    assert Explains(p, p.root, t, Start);
    assert HasWalk(p, p.root, t, 0);
    assert Valid(p, Initial(p));
  }

  lemma SoundFits(p: Input, s: State)
    requires Sound(p, s)
    ensures |s.path| <= |p.g.edges|
  {
    PathFits(p.g, s.path);
  }

  /** One run. A heap holds the candidates in the nodes of their vertices; the AVL tree is
      the map it stands for, and yields one of the vertices with the least key. */
  class Run {
    const input: Input
    const binaryHeap: bool
    /** The candidates, in the heap or in the tree. */
    const queue: HeapQueue
    var tree: map<Addr, nat>
    var tc: Vertices
    var path: seq<Addr>

    /** Every vertex has its heap node. */
    ghost predicate Ready()
      reads queue.heap, queue.Nodes()
    {
      queue.Valid() && queue.nodeOf.Keys == input.g.edges.Keys
    }

    ghost function Cand(): map<Addr, nat>
      reads this`tree, queue.heap, queue.Nodes()
      requires Ready()
    {
      if binaryHeap then queue.Contents() else tree
    }

    ghost function Now(): State
      reads this, queue.heap, queue.Nodes()
      requires Ready()
    {
      State(tc, Cand(), path)
    }

    constructor (input: Input, binaryHeap: bool)
      requires input.root in input.g.edges && input.g.edges.Keys <= input.pre.Keys
      ensures this.input == input && this.binaryHeap == binaryHeap && Ready() && Now() == Initial(input)
      ensures fresh(queue.heap) && fresh(queue.Nodes())
    {
      hide HeapQueue.Valid, HeapQueue.Contents, HeapQueue.Nodes, Initial;
      this.input := input;
      this.binaryHeap := binaryHeap;
      this.tc := map a | a in input.g.edges :: Entry(ROUTE_COST_BROKEN, 0, None);
      this.queue := new HeapQueue(input.g.edges.Keys);
      this.tree := map[];
      this.path := [];
      new;
      Begin();
    }

    /** Our own vertex is the first candidate, and the next hops of the neighbours are set. */
    method Begin()
      requires Ready() && input.root in input.g.edges && input.g.edges.Keys <= input.pre.Keys && Cand() == map[] &&
        path == []
      requires tc == map a | a in input.g.edges :: Entry(ROUTE_COST_BROKEN, 0, None)
      modifies this`tc, this`tree, queue.heap, queue.Nodes()
      ensures Ready() && Now() == Initial(input)
    {
      hide HeapQueue.Nodes, Run.Cand, Run.Ready;
      tc := tc[input.root := tc[input.root].(pathCost := 0)];
      AddCandSet(input.root);
      tc := map a | a in tc :: tc[a].(nextHop := input.pre[a]);
    }

    method AddCandSet(v: Addr)
      requires Ready() && v in tc && v in input.g.edges && v !in Cand()
      modifies this`tree, queue.heap, queue.Nodes()
      ensures Ready() && Cand() == old(Cand())[v := tc[v].pathCost]
    {
      hide HeapQueue.Valid, HeapQueue.Contents;
      if binaryHeap {
        queue.Add(v, tc[v].pathCost);
      } else {
        tree := tree[v := tc[v].pathCost];
      }
    }

    method DelCandTree(v: Addr)
      requires Ready() && !binaryHeap && v in Cand()
      modifies this`tree
      ensures Ready() && Cand() == old(Cand()) - {v}
    {
      tree := tree - {v};
    }

    /** A heap leaves a vertex alone that it does not hold. */
    method DecreaseKey(v: Addr, newCost: nat)
      requires Ready() && v in tc && v in input.g.edges && (v in Cand() ==> newCost <= Cand()[v])
      requires binaryHeap || v in Cand()
      modifies this`tc, this`tree, queue.heap, queue.Nodes()
      ensures Ready() && tc == old(tc)[v := old(tc)[v].(pathCost := newCost)]
      ensures Cand() == if v in old(Cand()) then old(Cand())[v := newCost] else old(Cand())
    {
      hide HeapQueue.Valid, HeapQueue.Contents;
      tc := tc[v := tc[v].(pathCost := newCost)];
      if binaryHeap {
        queue.Decrease(v, newCost);
      } else {
        DelCandTree(v);
        AddCandSet(v);
      }
    }

    /** Some candidate with the least key; only the heap removes it. */
    method ExtractBest() returns (r: Option<Addr>)
      requires Ready()
      modifies queue.heap, queue.Nodes()
      ensures Ready() && (r == None <==> old(Cand()) == map[])
      ensures r.Some? ==> Least(old(Cand()), old(Cand()).Keys, r.value)
      ensures Cand() == if r.Some? && binaryHeap then old(Cand()) - {r.value} else old(Cand())
    {
      hide HeapQueue.Valid, HeapQueue.Contents;
      if binaryHeap {
        r := queue.Extract();
      } else if tree == map[] {
        r := None;
      } else {
        ghost var least := LeastExists(tree, tree.Keys);
        var u :| u in tree.Keys && Least(tree, tree.Keys, u);
        r := Some(u);
      }
    }

    /** The tree cannot lower the key of a vertex that it does not hold; such a run is lost. */
    method Relax(u: Addr) returns (lost: bool)
      requires Ready() && RelaxingLawful(input, Now(), u, 0) && u in input.g.edges
      modifies this`tc, this`tree, queue.heap, queue.Nodes()
      ensures lost <==> !binaryHeap && exists k :: MissingAt(input.g, old(Now()), u, k)
      ensures lost ==> !Harmless(input.g, input.root)
      ensures !lost ==> Ready() && Now() == RelaxEdges(input.g, old(Now()), u, |input.g.edges[u]|)
    {
      hide RelaxingLawful, Harmless, HeapQueue.Valid, HeapQueue.Nodes, Run.Ready, Run.Cand;
      for k := 0 to |input.g.edges[u]|
        invariant Ready() && Now() == RelaxEdges(input.g, old(Now()), u, k)
        invariant !binaryHeap ==> forall j :: 0 <= j < k ==> !MissingAt(input.g, old(Now()), u, j)
      {
        RelaxEdgesKeeps(input, old(Now()), u, k);
        LawfulDomain(input, Now(), u, k);
        var e := input.g.edges[u][k];
        if !HasInverse(input.g, u, e) {
          continue;
        }
        if e.cost == LINK_COST_BROKEN {
          continue;
        }
        var newCost := (tc[u].pathCost + e.cost) % COST_MODULUS;
        var v := e.dest;
        if newCost < tc[v].pathCost {
          InTree();
          if !binaryHeap && tc[v].pathCost < ROUTE_COST_BROKEN && v !in tree {
            assert MissingAt(input.g, old(Now()), u, k);
            MissingIsHarm(input, Now(), u, k);
            return true;
          }
          Improve(u, v, newCost);
        }
      }
      return false;
    }

    lemma InTree()
      requires Ready()
      ensures !binaryHeap ==> Cand() == tree
    {
    }

    /** Record the better path to v that leads through u. */
    method Improve(u: Addr, v: Addr, newCost: nat)
      requires Ready() && u in tc && v in tc && v in input.g.edges && newCost < tc[v].pathCost
      requires v in Cand() ==> Cand()[v] == tc[v].pathCost < ROUTE_COST_BROKEN
      requires binaryHeap || (v in Cand() <==> tc[v].pathCost < ROUTE_COST_BROKEN)
      modifies this`tc, this`tree, queue.heap, queue.Nodes()
      ensures Ready() && Cand() == Requeue(old(Now()), v, newCost)
      ensures tc == old(tc)[v := Entry(newCost, (old(tc)[u].hops + 1) % 256,
                                       if old(tc)[u].nextHop.Some? then old(tc)[u].nextHop else old(tc)[v].nextHop)]
    {
      hide HeapQueue.Valid, HeapQueue.Nodes, Run.Ready, Run.Cand;
      if tc[v].pathCost < ROUTE_COST_BROKEN {
        DecreaseKey(v, newCost);
      } else {
        tc := tc[v := tc[v].(pathCost := newCost)];
        AddCandSet(v);
      }
      if tc[u].nextHop.Some? {
        tc := tc[v := tc[v].(nextHop := tc[u].nextHop)];
      }
      tc := tc[v := tc[v].(hops := (tc[u].hops + 1) % 256)];
    }

    /** One pass of the main loop, after vertex u was found. */
    method PassOver(u: Addr, ghost s: State) returns (lost: bool)
      requires Ready() && Now() == Taken(s, u, binaryHeap) && RelaxingLawful(input, Now(), u, 0) && u in input.g.edges
      requires binaryHeap || u in Cand()
      modifies this`tc, this`tree, this`path, queue.heap, queue.Nodes()
      ensures lost <==> !binaryHeap && exists k :: MissingAt(input.g, s, u, k)
      ensures lost ==> !Harmless(input.g, input.root)
      ensures !lost ==> Ready() && Now() == Pass(input.g, s, u, binaryHeap)
    {
      hide HeapQueue.Nodes, Run.Cand, Run.Ready, RelaxingLawful, RelaxEdges, Harmless, Missing;
      RelaxEdgesKeeps(input, Now(), u, |input.g.edges[u]|);
      lost := Relax(u);
      if lost {
        return;
      }
      if !binaryHeap {
        DelCandTree(u);
      }
      path := path + [u];
    }

    /** Whatever minimum the queue yields on ties, the run ends. A run with the heap is never
        lost, and one with the tree only where wrap-around does harm; a run that is not lost
        is correct exactly where wrap-around does no harm. The states between the passes tell
        how it came to its end. */
    method RunFull() returns (pathCount: nat, lost: bool, ghost states: seq<State>)
      requires Ready() && Lawful(input, Now()) && path == []
      modifies this`tc, this`tree, this`path, queue.heap, queue.Nodes()
      ensures ArePasses(input.g, states, binaryHeap) && states[0] == old(Now())
      ensures if lost then !binaryHeap && Loses(input.g, states[|states| - 1])
        else Ready() && Now() == states[|states| - 1] && Cand() == map[]
      ensures lost ==> !Harmless(input.g, input.root)
      ensures !lost ==> (Correct(input, tc, path) <==> Harmless(input.g, input.root)) && pathCount == |path|
    {
      hide Valid, Partition, Spoiled, Harmless, Correct, HeapQueue.Valid, HeapQueue.Nodes, Run.Ready, Run.Cand,
        RelaxingLawful, IsPass, Loses;
      pathCount, lost, states := 0, false, [Now()];
      while true
        invariant Ready() && Lawful(input, Now()) && pathCount == |path| <= |input.g.edges|
        invariant ArePasses(input.g, states, binaryHeap) && states[0] == old(Now()) && Now() == states[|states| - 1]
        decreases |input.g.edges| - |path|
      {
        ghost var s := Now();
        var best := ExtractBest();
        if best == None {
          CorrectIffHarmless(input, Now());
          return;
        }
        var u := best.value;
        IsCheapest(input, s, u);
        PassStarts(input, s, u, binaryHeap);
        PassKeeps(input, s, u, binaryHeap);
        assert Now() == Taken(s, u, binaryHeap);
        lost := PassOver(u, s);
        PassOrLoss(input.g, s, u, binaryHeap);
        if lost {
          return;
        }
        pathCount := pathCount + 1;
        states := states + [Now()];
        SoundFits(input, Now());
      }
    }
  }

  /** The main loop can get from s to t by one pass. */
  ghost predicate IsPass(g: Graph, s: State, t: State, binaryHeap: bool) {
    s.cand.Keys <= s.tc.Keys && exists u ::
      && Cheapest(s.tc, s.cand.Keys, u) && u in g.edges && t == Pass(g, s, u, binaryHeap)
      && (binaryHeap || forall k :: !MissingAt(g, s, u, k))
  }

  ghost predicate ArePasses(g: Graph, states: seq<State>, binaryHeap: bool) {
    states != [] && forall i :: 0 < i < |states| ==> IsPass(g, states[i - 1], states[i], binaryHeap)
  }

  /** From s the tree can come to lower the key of a vertex that it does not hold. */
  ghost predicate Loses(g: Graph, s: State) {
    s.cand.Keys <= s.tc.Keys && exists u, k :: Cheapest(s.tc, s.cand.Keys, u) && MissingAt(g, s, u, k)
  }

  lemma PassOrLoss(g: Graph, s: State, u: Addr, binaryHeap: bool)
    requires s.cand.Keys <= s.tc.Keys && Cheapest(s.tc, s.cand.Keys, u) && u in g.edges
    ensures if !binaryHeap && exists k :: MissingAt(g, s, u, k) then Loses(g, s)
      else IsPass(g, s, Pass(g, s, u, binaryHeap), binaryHeap)
  {
    hide MissingAt, Pass, Cheapest;
  }

  lemma IsCheapest(p: Input, s: State, u: Addr)
    requires Sound(p, s) && Least(s.cand, s.cand.Keys, u)
    ensures s.cand.Keys <= s.tc.Keys && Cheapest(s.tc, s.cand.Keys, u) && u in p.g.edges
  {
  }

  /** Two runs over the same topology, one with a heap and one with a tree, end with the same
      path costs and the same vertices on the path list. */
  method RunBoth(input: Input) returns (heap: Run, tree: Run)
    requires input.root in input.g.edges && input.g.edges.Keys <= input.pre.Keys && Harmless(input.g, input.root)
    ensures heap.binaryHeap && !tree.binaryHeap && heap.input == tree.input == input
    ensures Correct(input, heap.tc, heap.path) && Correct(input, tree.tc, tree.path)
    ensures forall a :: a in heap.tc ==> a in tree.tc && heap.tc[a].pathCost == tree.tc[a].pathCost
    ensures forall a :: a in heap.path <==> a in tree.path
  {
    hide Correct, Harmless;
    var lost;
    ghost var states;
    heap, lost, states := RunOne(input, true);
    tree, lost, states := RunOne(input, false);
    RunsAgree(input, heap.tc, heap.path, tree.tc, tree.path);
  }

  /** A whole run: unless it is lost, correct exactly where wrap-around does no harm. */
  method RunOne(input: Input, binaryHeap: bool) returns (run: Run, lost: bool, ghost states: seq<State>)
    requires input.root in input.g.edges && input.g.edges.Keys <= input.pre.Keys
    ensures fresh(run) && run.input == input && run.binaryHeap == binaryHeap
    ensures ArePasses(input.g, states, binaryHeap) && states[0] == Initial(input)
    ensures var last := states[|states| - 1];
      if lost then !binaryHeap && Loses(input.g, last) else State(run.tc, map[], run.path) == last
    ensures lost ==> !Harmless(input.g, input.root)
    ensures !lost ==> (Correct(input, run.tc, run.path) <==> Harmless(input.g, input.root))
  {
    InitialLawful(input);
    hide Correct, Lawful, Harmless, Run.Ready, Run.Cand, HeapQueue.Nodes, Loses, IsPass, Initial;
    run := new Run(input, binaryHeap);
    var n;
    n, lost, states := run.RunFull();
  }

  lemma {:induction false} LeastExists(m: map<Addr, nat>, ks: set<Addr>) returns (u: Addr)
    requires ks <= m.Keys && ks != {}
    ensures Least(m, ks, u)
  {
    u :| u in ks;
    if b :| b in ks && b != u {
      assert b in ks - {u};
      var v := LeastExists(m, ks - {u});
      if m[v] < m[u] {
        u := v;
      }
    }
  }
}
