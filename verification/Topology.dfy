/** The link state database as SPF sees it: vertices, their edge trees, and walks over
    the edges that SPF may use. */
module Topology {
  import opened Words

  datatype Option<+T> = None | Some(value: T)

  /** A vertex is keyed by the main address of its router. */
  type Addr = nat

  const LINK_COST_BROKEN: nat := 0x40_0000
  const ROUTE_COST_BROKEN: nat := 0xffff_ffff
  const COST_MODULUS: nat := 0x1_0000_0000

  /** Link costs are 32-bit words. */
  type LinkCost = c: nat | c < COST_MODULUS

  datatype Edge = Edge(dest: Addr, cost: LinkCost)

  /** Every vertex with its edges, in the order in which its edge tree is walked. */
  datatype Graph = Graph(edges: map<Addr, seq<Edge>>)

  /** `edge_inv` is linked exactly when the far vertex is known and has an edge back. */
  predicate HasInverse(g: Graph, u: Addr, e: Edge) {
    e.dest in g.edges && exists i :: 0 <= i < |g.edges[e.dest]| && g.edges[e.dest][i].dest == u
  }

  predicate Usable(g: Graph, u: Addr, e: Edge) {
    HasInverse(g, u, e) && e.cost != LINK_COST_BROKEN
  }

  /** A walk from the root, growing at its far end. */
  datatype Walk = Start | Hop(prefix: Walk, e: Edge)

  function End(root: Addr, w: Walk): Addr {
    if w.Start? then root else w.e.dest
  }

  function Cost(w: Walk): nat {
    if w.Start? then 0 else Cost(w.prefix) + w.e.cost
  }

  function Hops(w: Walk): nat {
    if w.Start? then 0 else Hops(w.prefix) + 1
  }

  /** The first vertex after the root. */
  function FirstHop(w: Walk): Addr
    requires w.Hop?
  {
    if w.prefix.Start? then w.e.dest else FirstHop(w.prefix)
  }

  ghost predicate IsWalk(g: Graph, root: Addr, w: Walk)
    ensures IsWalk(g, root, w) ==> End(root, w) in g.edges
  {
    match w
    case Start => root in g.edges
    case Hop(p, e) =>
      && IsWalk(g, root, p)
      && End(root, p) in g.edges
      && e in g.edges[End(root, p)]
      && Usable(g, End(root, p), e)
  }

  ghost predicate IsShortest(g: Graph, root: Addr, w: Walk)
    ensures IsShortest(g, root, w) ==> End(root, w) in g.edges
  {
    && IsWalk(g, root, w)
    && forall w' :: IsWalk(g, root, w') && End(root, w') == End(root, w) ==> Cost(w) <= Cost(w')
  }

  /** No relaxation of a shortest walk leaves the range below ROUTE_COST_BROKEN, so 32-bit
      addition of path costs is addition. */
  ghost predicate NoWrap(g: Graph, root: Addr) {
    forall w, e ::
      IsShortest(g, root, w) && e in g.edges[End(root, w)] && Usable(g, End(root, w), e)
      ==> Cost(w) + e.cost < ROUTE_COST_BROKEN
  }

  /** Every distance has a place below ROUTE_COST_BROKEN, and no sum over a shortest walk
      wraps to less than the distance of the vertex it leads to. */
  ghost predicate Harmless(g: Graph, root: Addr) {
    && (forall w :: IsShortest(g, root, w) ==> Cost(w) < ROUTE_COST_BROKEN)
    && (forall w, e, v ::
          IsShortest(g, root, w) && e in g.edges[End(root, w)] && Usable(g, End(root, w), e)
          && IsShortest(g, root, v) && End(root, v) == e.dest
          ==> Cost(v) <= (Cost(w) + e.cost) % COST_MODULUS)
  }

  /** The vertices a walk visits. */
  ghost function Visited(root: Addr, w: Walk): set<Addr> {
    if w.Start? then {root} else Visited(root, w.prefix) + {w.e.dest}
  }

  ghost predicate Simple(root: Addr, w: Walk) {
    w.Hop? ==> Simple(root, w.prefix) && w.e.dest !in Visited(root, w.prefix)
  }

  /** The part of a simple walk that ends at a vertex it visits. */
  lemma {:induction false} Truncate(g: Graph, root: Addr, w: Walk, a: Addr) returns (t: Walk)
    requires IsWalk(g, root, w) && Simple(root, w) && a in Visited(root, w)
    ensures IsWalk(g, root, t) && Simple(root, t) && End(root, t) == a && Cost(t) <= Cost(w)
  {
    if End(root, w) == a {
      t := w;
    } else {
      t := Truncate(g, root, w.prefix, a);
    }
  }

  /** Cutting out cycles gives a simple walk that is no costlier. */
  lemma {:induction false} RemoveCycles(g: Graph, root: Addr, w: Walk) returns (t: Walk)
    requires IsWalk(g, root, w)
    ensures IsWalk(g, root, t) && Simple(root, t) && End(root, t) == End(root, w) && Cost(t) <= Cost(w)
  {
    if w.Start? {
      t := w;
    } else {
      var p := RemoveCycles(g, root, w.prefix);
      if w.e.dest in Visited(root, p) {
        t := Truncate(g, root, p, w.e.dest);
      } else {
        t := Hop(p, w.e);
      }
    }
  }

  /** A simple walk visits as many vertices as it has hops, plus the root. */
  lemma {:induction false} SimpleIsShort(g: Graph, root: Addr, w: Walk)
    requires IsWalk(g, root, w) && Simple(root, w)
    ensures Visited(root, w) <= g.edges.Keys && |Visited(root, w)| == Hops(w) + 1
    ensures Hops(w) + 1 <= |g.edges|
  {
    if w.Hop? {
      SimpleIsShort(g, root, w.prefix);
    }
    SubsetSize(Visited(root, w), g.edges.Keys);
  }

  lemma {:induction false} SubsetSize<T>(a: set<T>, b: set<T>)
    requires a <= b
    ensures |a| <= |b|
  {
    assert b == a + (b - a);
  }

  /** No edge that SPF may use costs more than c. */
  ghost predicate CostsUpTo(g: Graph, c: nat) {
    forall u, e :: u in g.edges && e in g.edges[u] && Usable(g, u, e) ==> e.cost <= c
  }

  lemma {:induction false} CostBound(g: Graph, root: Addr, w: Walk, c: nat)
    requires IsWalk(g, root, w) && CostsUpTo(g, c)
    ensures Cost(w) <= Hops(w) * c
  {
    if w.Hop? {
      CostBound(g, root, w.prefix, c);
    }
  }

  /** If as many edges as there are vertices stay in range, then no relaxation wraps. */
  lemma SmallGraphsDoNotWrap(g: Graph, root: Addr, c: nat)
    requires CostsUpTo(g, c) && |g.edges| * c < ROUTE_COST_BROKEN
    ensures NoWrap(g, root)
  {
    forall w, e | IsShortest(g, root, w) && e in g.edges[End(root, w)] && Usable(g, End(root, w), e)
      ensures Cost(w) + e.cost < ROUTE_COST_BROKEN
    {
      assert e.cost <= c;
      ShortestBound(g, root, w, c);
    }
  }

  lemma ShortestBound(g: Graph, root: Addr, w: Walk, c: nat)
    requires CostsUpTo(g, c) && IsShortest(g, root, w)
    ensures Cost(w) + c <= |g.edges| * c
  {
    var t := RemoveCycles(g, root, w);
    SimpleIsShort(g, root, t);
    CostBound(g, root, t, c);
    OneMore(Hops(t), |g.edges|, c);
  }

  lemma OneMore(k: nat, n: nat, c: nat)
    requires k + 1 <= n
    ensures k * c + c == (k + 1) * c <= n * c
  {
    ProductsGrow(k + 1, n, c);
  }

  /** A sum that does not wrap is at least the distance of its end. */
  lemma SumIsFar(g: Graph, root: Addr, w: Walk, e: Edge, v: Walk)
    requires IsWalk(g, root, w) && e in g.edges[End(root, w)] && Usable(g, End(root, w), e)
    requires IsShortest(g, root, v) && End(root, v) == e.dest && Cost(w) + e.cost < COST_MODULUS
    ensures Cost(v) <= (Cost(w) + e.cost) % COST_MODULUS
  {
    assert IsWalk(g, root, Hop(w, e));
  }

  /** Sums that reach ROUTE_COST_BROKEN but do not wrap do no harm either. */
  lemma SmallGraphsAreHarmless(g: Graph, root: Addr, c: nat)
    requires CostsUpTo(g, c) && |g.edges| * c < COST_MODULUS
    ensures Harmless(g, root)
  {
    forall w | IsShortest(g, root, w)
      ensures Cost(w) < ROUTE_COST_BROKEN
    {
      ShortestBound(g, root, w, c);
      hide IsShortest, Usable;
      if c == 0 {
        assert |g.edges| * c == 0;
      }
    }
    forall w, e, v | IsShortest(g, root, w) && e in g.edges[End(root, w)] && Usable(g, End(root, w), e)
                     && IsShortest(g, root, v) && End(root, v) == e.dest
      ensures Cost(v) <= (Cost(w) + e.cost) % COST_MODULUS
    {
      assert e.cost <= c;
      ShortestBound(g, root, w, c);
      SumIsFar(g, root, w, e, v);
    }
  }

  lemma NoWrapIsHarmless(g: Graph, root: Addr)
    requires NoWrap(g, root)
    ensures Harmless(g, root)
  {
    forall w | IsShortest(g, root, w)
      ensures Cost(w) < ROUTE_COST_BROKEN
    {
      NoWrapInRange(g, root, w);
    }
    hide Usable;
    forall w, e, v | IsShortest(g, root, w) && e in g.edges[End(root, w)] && Usable(g, End(root, w), e)
                     && IsShortest(g, root, v) && End(root, v) == e.dest
      ensures Cost(v) <= (Cost(w) + e.cost) % COST_MODULUS
    {
      assert Cost(w) + e.cost < ROUTE_COST_BROKEN;
      SumIsFar(g, root, w, e, v);
    }
  }

  lemma NoWrapInRange(g: Graph, root: Addr, w: Walk)
    requires NoWrap(g, root) && IsShortest(g, root, w)
    ensures Cost(w) < ROUTE_COST_BROKEN
  {
    if w.Hop? {
      PrefixIsShortest(g, root, w);
      hide Usable, IsShortest;
      assert w.e in g.edges[End(root, w.prefix)];
    }
  }

  /** A shortest walk to the end of any walk. */
  lemma ShortestExists(g: Graph, root: Addr, w: Walk) returns (v: Walk)
    requires IsWalk(g, root, w)
    ensures IsShortest(g, root, v) && End(root, v) == End(root, w) && Cost(v) <= Cost(w)
    decreases Cost(w)
  {
    if IsShortest(g, root, w) {
      v := w;
    } else {
      var w' :| IsWalk(g, root, w') && End(root, w') == End(root, w) && Cost(w') < Cost(w);
      v := ShortestExists(g, root, w');
    }
  }

  lemma PrefixIsShortest(g: Graph, root: Addr, w: Walk)
    requires IsShortest(g, root, w) && w.Hop?
    ensures IsShortest(g, root, w.prefix)
  {
    forall v | IsWalk(g, root, v) && End(root, v) == End(root, w.prefix)
      ensures Cost(w.prefix) <= Cost(v)
    {
      assert IsWalk(g, root, Hop(v, w.e));
    }
  }

  /** A line of n routers, each joined to its neighbours at cost c. */
  function LineEdges(n: nat, c: LinkCost, u: Addr): seq<Edge>
  {
    (if 0 < u then [Edge(u - 1, c)] else []) + (if u + 1 < n then [Edge(u + 1, c)] else [])
  }

  function UpTo(n: nat): (s: set<Addr>)
    ensures |s| == n && forall u: Addr :: u in s <==> u < n
  {
    if n == 0 then {} else UpTo(n - 1) + {n - 1}
  }

  function Line(n: nat, c: LinkCost): Graph {
    Graph(map u | u in UpTo(n) :: LineEdges(n, c, u))
  }

  lemma LineUsable(n: nat, c: LinkCost, u: Addr, e: Edge)
    requires u in Line(n, c).edges && e in LineEdges(n, c, u) && c < LINK_COST_BROKEN
    ensures Usable(Line(n, c), u, e) && (e.dest == u + 1 || e.dest + 1 == u) && e.cost == c
  {
    var back := LineEdges(n, c, e.dest);
    assert back == Line(n, c).edges[e.dest];
    if e.dest == u + 1 {
      assert back[0].dest == u;
    } else {
      assert back[|back| - 1].dest == u;
    }
  }

  lemma {:induction false} LineWalk(n: nat, c: LinkCost, u: Addr) returns (w: Walk)
    requires u < n && c < LINK_COST_BROKEN
    ensures IsWalk(Line(n, c), 0, w) && End(0, w) == u && Cost(w) == u * c
  {
    if u == 0 {
      w := Start;
    } else {
      var p := LineWalk(n, c, u - 1);
      OneMore(u - 1, u, c);
      w := LineStep(n, c, p, u - 1);
    }
  }

  lemma LineStep(n: nat, c: LinkCost, p: Walk, u: Addr) returns (w: Walk)
    requires u + 1 < n && c < LINK_COST_BROKEN && IsWalk(Line(n, c), 0, p) && End(0, p) == u
    ensures IsWalk(Line(n, c), 0, w) && End(0, w) == u + 1 && Cost(w) == Cost(p) + c
  {
    var e := Edge(u + 1, c);
    assert e in LineEdges(n, c, u);
    LineUsable(n, c, u, e);
    w := Hop(p, e);
  }

  /** On a line no walk gets further than its number of edges, which all cost the same. */
  lemma {:induction false} LineHops(n: nat, c: LinkCost, w: Walk)
    requires IsWalk(Line(n, c), 0, w) && c < LINK_COST_BROKEN
    ensures Cost(w) == Hops(w) * c && End(0, w) <= Hops(w)
  {
    if w.Hop? {
      LineHops(n, c, w.prefix);
      LineUsable(n, c, End(0, w.prefix), w.e);
      hide Line, Usable, LineEdges;
      OneMore(Hops(w.prefix), Hops(w), c);
    }
  }

  lemma LineShortest(n: nat, c: LinkCost, w: Walk)
    requires IsShortest(Line(n, c), 0, w) && End(0, w) < n && 0 < c < LINK_COST_BROKEN
    ensures Hops(w) == End(0, w) && Cost(w) == End(0, w) * c
  {
    var direct := LineWalk(n, c, End(0, w));
    LineHops(n, c, w);
    FactorBound(Hops(w), End(0, w), c);
  }

  lemma LineWalkIsShortest(n: nat, c: LinkCost, u: Addr) returns (w: Walk)
    requires u < n && c < LINK_COST_BROKEN
    ensures IsShortest(Line(n, c), 0, w) && End(0, w) == u && Cost(w) == u * c
  {
    w := LineWalk(n, c, u);
    forall v | IsWalk(Line(n, c), 0, v) && End(0, v) == u
      ensures Cost(w) <= Cost(v)
    {
      LineHops(n, c, v);
      ProductsGrow(u, Hops(v), c);
    }
  }

  lemma LineCosts(n: nat, c: LinkCost)
    requires c < LINK_COST_BROKEN
    ensures CostsUpTo(Line(n, c), c) && |Line(n, c).edges| == n
  {
    var g := Line(n, c);
    forall u, e | u in g.edges && e in g.edges[u]
      ensures e.cost <= c
    {
      LineUsable(n, c, u, e);
    }
    assert g.edges.Keys == UpTo(n);
  }

  /** The edge back from vertex u of a line. */
  lemma BackEdge(n: nat, c: LinkCost, u: Addr) returns (w: Walk, e: Edge)
    requires c < LINK_COST_BROKEN && 0 < u < n
    ensures IsShortest(Line(n, c), 0, w) && End(0, w) == u && Cost(w) == u * c
    ensures e in Line(n, c).edges[u] && Usable(Line(n, c), u, e) && e == Edge(u - 1, c)
  {
    w := LineWalkIsShortest(n, c, u);
    e := Edge(u - 1, c);
    assert e == LineEdges(n, c, u)[0];
    LineUsable(n, c, u, e);
  }

  lemma AtLeastTwo(n: nat, c: nat)
    requires n * c > c
    ensures n > 1
  {
    if n <= 1 {
      ProductsGrow(n, 1, c);
    }
  }

  /** Otherwise the edge back out of the far end of a line wraps. */
  lemma LongLinesWrap(n: nat, c: LinkCost)
    requires c < LINK_COST_BROKEN && n * c >= ROUTE_COST_BROKEN
    ensures !NoWrap(Line(n, c), 0)
  {
    hide Line, IsShortest, Usable;
    AtLeastTwo(n, c);
    var w, e := BackEdge(n, c, n - 1);
    OneMore(n - 1, n, c);
    assert Cost(w) + e.cost >= ROUTE_COST_BROKEN;
  }

  /** The sizes up to which every topology with costs up to c is safe from wrap-around. */
  lemma WrapFreeSizes(n: nat, c: LinkCost)
    requires c < LINK_COST_BROKEN
    ensures (forall g: Graph, root :: |g.edges| == n && CostsUpTo(g, c) ==> NoWrap(g, root)) <==>
      n * c < ROUTE_COST_BROKEN
  {
    hide NoWrap, CostsUpTo, Line;
    if n * c < ROUTE_COST_BROKEN {
      forall g: Graph, root | |g.edges| == n && CostsUpTo(g, c)
        ensures NoWrap(g, root)
      {
        SmallGraphsDoNotWrap(g, root, c);
      }
    } else {
      LongLinesWrap(n, c);
      LineCosts(n, c);
      var g := Line(n, c);
      assert |g.edges| == n && CostsUpTo(g, c) && !NoWrap(g, 0);
    }
  }

  /** The first vertex of a line whose edge back wraps gives its neighbour, which is many
      hops away from us, less than the cost of one hop. */
  lemma LongLinesHarm(n: nat, c: LinkCost)
    requires c < LINK_COST_BROKEN && n * c >= COST_MODULUS
    ensures !Harmless(Line(n, c), 0)
  {
    hide Line, IsShortest, Usable;
    var k := FirstWrap(n, c);
    var w, e := BackEdge(n, c, k);
    var v := LineWalkIsShortest(n, c, k - 1);
    assert (Cost(w) + e.cost) % COST_MODULUS < c <= Cost(v);
  }

  lemma FirstWrap(n: nat, c: LinkCost) returns (k: nat)
    requires c < LINK_COST_BROKEN && n * c >= COST_MODULUS
    ensures 1 < k < n && COST_MODULUS <= k * c + c < COST_MODULUS + c && c <= (k - 1) * c
  {
    k := 1;
    AtLeastTwo(n, c);
    while k * c + c < COST_MODULUS
      invariant 1 <= k < n && k * c < COST_MODULUS
      decreases n - k
    {
      OneMore(k, k + 1, c);
      if k + 1 == n {
        assert false;
      }
      k := k + 1;
    }
    AtLeastTwo(k, c);
    OneMore(0, k - 1, c);
  }

  /** The sizes up to which no topology with costs up to c is harmed by wrap-around. */
  lemma HarmlessSizes(n: nat, c: LinkCost)
    requires c < LINK_COST_BROKEN
    ensures (forall g: Graph, root :: |g.edges| == n && CostsUpTo(g, c) ==> Harmless(g, root)) <==> n * c < COST_MODULUS
  {
    hide Harmless, CostsUpTo, Line;
    if n * c < COST_MODULUS {
      forall g: Graph, root | |g.edges| == n && CostsUpTo(g, c)
        ensures Harmless(g, root)
      {
        SmallGraphsAreHarmless(g, root, c);
      }
    } else {
      LongLinesHarm(n, c);
      LineCosts(n, c);
      var g := Line(n, c);
      assert |g.edges| == n && CostsUpTo(g, c) && !Harmless(g, 0);
    }
  }

  /** With nothing known but that links are not broken, both bounds are 1024 vertices. */
  lemma SizesBelowBroken(n: nat)
    ensures (forall g: Graph, root :: |g.edges| == n && CostsUpTo(g, LINK_COST_BROKEN - 1) ==> NoWrap(g, root)) <==>
      n <= 1024
    ensures (forall g: Graph, root :: |g.edges| == n && CostsUpTo(g, LINK_COST_BROKEN - 1) ==> Harmless(g, root)) <==>
      n <= 1024
  {
    hide Harmless, NoWrap, CostsUpTo;
    WrapFreeSizes(n, LINK_COST_BROKEN - 1);
    HarmlessSizes(n, LINK_COST_BROKEN - 1);
  }
}
