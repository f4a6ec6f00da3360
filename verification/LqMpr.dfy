/** Selection of multipoint relays by link quality. */
module LqMpr {
  import opened Topology

  /** A one-hop neighbour. */
  class NeighborEntry {
    const sym: bool
    const willAlways: bool
    var isMpr: bool
    var wasMpr: bool
    var skip: bool

    constructor (sym: bool, willAlways: bool)
      ensures this.sym == sym && this.willAlways == willAlways && !isMpr && !wasMpr && !skip
    {
      this.sym, this.willAlways := sym, willAlways;
      isMpr, wasMpr, skip := false, false, false;
    }
  }

  /** A way to a two-hop neighbour through a one-hop neighbour, and what it costs. */
  datatype Connector = Connector(nbr: NeighborEntry, cost: nat)

  /** A two-hop neighbour. `self` is its own entry in the neighbour table, if it has one, and
      `bestLink` the cost of the best link to it, if there is one. */
  datatype TwoHop = TwoHop(connectors: seq<Connector>, self: Option<NeighborEntry>, bestLink: Option<nat>)

  /** The cost a relay must stay below to be of use, or nothing when no relay is wanted
      because the two-hop neighbour is better reached directly. */
  function Limit(t: TwoHop): Option<nat> {
    if t.self.Some? && t.self.value.sym then
      if t.bestLink == None then None
      else if exists i :: 0 <= i < |t.connectors| && t.connectors[i].cost < t.bestLink.value then t.bestLink
      else None
    else Some(LINK_COST_BROKEN)
  }

  predicate Useful(t: TwoHop, i: nat) {
    && i < |t.connectors| && Limit(t).Some?
    && t.connectors[i].nbr.sym && t.connectors[i].cost < Limit(t).value && t.connectors[i].cost < LINK_COST_BROKEN
  }

  /** A way over a symmetric neighbour that is not broken and, if the two-hop neighbour is itself
      a symmetric neighbour with a link, cheaper than the best such link. */
  predicate IsGoodWay(t: TwoHop, i: nat) {
    && i < |t.connectors| && t.connectors[i].nbr.sym && t.connectors[i].cost < LINK_COST_BROKEN
    && (t.self.Some? && t.self.value.sym ==> t.bestLink.Some? && t.connectors[i].cost < t.bestLink.value)
  }

  lemma UsefulIsGood(t: TwoHop, i: nat)
    ensures Useful(t, i) <==> IsGoodWay(t, i)
  {
    if IsGoodWay(t, i) {
      assert t.connectors[i].cost < LINK_COST_BROKEN;
    }
  }

  /** The neighbours that could usefully relay to t. */
  ghost function Candidates(t: TwoHop): set<NeighborEntry> {
    set i | 0 <= i < |t.connectors| && Useful(t, i) :: t.connectors[i].nbr
  }

  /** The best connector through s is at most as expensive as any through n. */
  ghost predicate NotCostlier(t: TwoHop, s: NeighborEntry, n: NeighborEntry) {
    exists i :: 0 <= i < |t.connectors| && t.connectors[i].nbr == s && CostBelow(t, i, n)
  }

  ghost predicate CostBelow(t: TwoHop, i: nat, n: NeighborEntry)
    requires i < |t.connectors|
  {
    forall j :: 0 <= j < |t.connectors| && t.connectors[j].nbr == n ==> t.connectors[i].cost <= t.connectors[j].cost
  }

  /** The chosen relays are candidates, and none is costlier than a candidate left out. */
  ghost predicate Cheapest(t: TwoHop, chosen: set<NeighborEntry>) {
    && chosen <= Candidates(t)
    && forall s, n :: s in chosen && n in Candidates(t) - chosen ==> NotCostlier(t, s, n)
  }

  /** As many relays as are wanted, if there are that many candidates. */
  ghost predicate Covers(t: TwoHop, coverage: nat, chosen: set<NeighborEntry>) {
    Cheapest(t, chosen) && |chosen| == if coverage <= |Candidates(t)| then coverage else |Candidates(t)|
  }

  /** The innermost loop: the cheapest symmetric connector that is not marked, if any is below
      LINK_COST_BROKEN. */
  method FindBest(t: TwoHop) returns (r: Option<nat>)
    ensures r == None ==> OpenCostAtLeast(t, LINK_COST_BROKEN)
    ensures r.Some? ==> r.value < |t.connectors| && Open(t, r.value) && t.connectors[r.value].cost < LINK_COST_BROKEN
    ensures r.Some? ==> OpenCostAtLeast(t, t.connectors[r.value].cost)
  {
    r := None;
    var best := LINK_COST_BROKEN;
    for j := 0 to |t.connectors|
      invariant r == None ==> best == LINK_COST_BROKEN
      invariant r.Some? ==> r.value < j && Open(t, r.value) && t.connectors[r.value].cost == best < LINK_COST_BROKEN
      invariant forall i :: 0 <= i < j && Open(t, i) ==> best <= t.connectors[i].cost
    {
      var w := t.connectors[j];
      if w.nbr.sym && !w.nbr.skip && w.cost < best {
        r := Some(j);
        best := w.cost;
      }
    }
  }

  ghost predicate Open(t: TwoHop, j: nat)
    requires j < |t.connectors|
    reads t.connectors[j].nbr
  {
    t.connectors[j].nbr.sym && !t.connectors[j].nbr.skip
  }

  /** No unmarked connector is cheaper than c. */
  ghost predicate OpenCostAtLeast(t: TwoHop, c: nat)
    reads set i | 0 <= i < |t.connectors| :: t.connectors[i].nbr
  {
    forall j :: 0 <= j < |t.connectors| && Open(t, j) ==> c <= t.connectors[j].cost
  }

  /** Choosing the cheapest open connector keeps the choice cheapest. */
  lemma ChooseNext(t: TwoHop, chosen: set<NeighborEntry>, i: nat)
    requires Cheapest(t, chosen) && Useful(t, i) && t.connectors[i].nbr !in chosen
    requires forall j :: 0 <= j < |t.connectors| && t.connectors[j].nbr in Candidates(t) - chosen ==>
               t.connectors[i].cost <= t.connectors[j].cost
    ensures Cheapest(t, chosen + {t.connectors[i].nbr})
  {
    var c := t.connectors[i].nbr;
    assert c in Candidates(t);
    forall s, n | s in chosen + {c} && n in Candidates(t) - (chosen + {c})
      ensures NotCostlier(t, s, n)
    {
      if s !in chosen {
        assert CostBelow(t, i, n);
      }
    }
  }

  /** The relays for one two-hop neighbour. */
  method SelectRelays(t: TwoHop, coverage: nat, ghost nbrs: set<NeighborEntry>)
      returns (changes: bool, ghost chosen: set<NeighborEntry>)
    requires forall i :: 0 <= i < |t.connectors| ==> t.connectors[i].nbr in nbrs
    modifies nbrs
    ensures Covers(t, coverage, chosen)
    ensures forall n :: n in nbrs ==> n.isMpr == (old(n.isMpr) || n in chosen) && n.wasMpr == old(n.wasMpr)
    ensures chosen <= nbrs && (changes <==> exists n :: n in chosen && !n.wasMpr)
  {
    changes, chosen := false, {};
    var best1hop := LINK_COST_BROKEN;
    if t.self.Some? && t.self.value.sym {
      if t.bestLink == None {
        return;
      }
      best1hop := t.bestLink.value;
      var w := 0;
      while w < |t.connectors| && t.connectors[w].cost >= best1hop
        invariant w <= |t.connectors| && forall i :: 0 <= i < w ==> t.connectors[i].cost >= best1hop
      {
        w := w + 1;
      }
      if w == |t.connectors| {
        return;
      }
    }
    assert Limit(t) == Some(best1hop);
    ClearMarks(t, nbrs);
    changes, chosen := MarkRelays(t, coverage, best1hop, nbrs);
  }

  method ClearMarks(t: TwoHop, ghost nbrs: set<NeighborEntry>)
    requires forall i :: 0 <= i < |t.connectors| ==> t.connectors[i].nbr in nbrs
    modifies nbrs`skip
    ensures forall i :: 0 <= i < |t.connectors| ==> !t.connectors[i].nbr.skip
  {
    for i := 0 to |t.connectors|
      invariant forall j :: 0 <= j < i ==> !t.connectors[j].nbr.skip
    {
      t.connectors[i].nbr.skip := false;
    }
  }

  /** The marks of the connectors are the choice so far. */
  ghost predicate Marked(t: TwoHop, chosen: set<NeighborEntry>)
    reads set i | 0 <= i < |t.connectors| :: t.connectors[i].nbr
  {
    forall j :: 0 <= j < |t.connectors| ==> (t.connectors[j].nbr.skip <==> t.connectors[j].nbr in chosen)
  }

  method MarkRelays(t: TwoHop, coverage: nat, best1hop: nat, ghost nbrs: set<NeighborEntry>)
      returns (changes: bool, ghost chosen: set<NeighborEntry>)
    requires forall i :: 0 <= i < |t.connectors| ==> t.connectors[i].nbr in nbrs && !t.connectors[i].nbr.skip
    requires Limit(t) == Some(best1hop)
    modifies nbrs`skip, nbrs`isMpr
    ensures Covers(t, coverage, chosen)
    ensures forall n :: n in nbrs ==> n.isMpr == (old(n.isMpr) || n in chosen)
    ensures chosen <= nbrs && (changes <==> exists n :: n in chosen && !n.wasMpr)
  {
    hide Cheapest, Candidates, Limit, OpenCostAtLeast;
    changes, chosen := false, {};
    NothingChosen(t);
    for k := 0 to coverage
      invariant Cheapest(t, chosen) && |chosen| == k && chosen <= nbrs && Marked(t, chosen)
      invariant forall n :: n in nbrs ==> n.isMpr == (old(n.isMpr) || n in chosen)
      invariant changes <==> exists n :: n in chosen && !n.wasMpr
    {
      var best := FindBest(t);
      if best.Some? && t.connectors[best.value].cost < best1hop {
        var neigh := t.connectors[best.value].nbr;
        NextIsCheapest(t, chosen, best.value);
        neigh.isMpr := true;
        neigh.skip := true;
        chosen := chosen + {neigh};
        if neigh.isMpr != neigh.wasMpr {
          changes := true;
        }
      } else {
        NoneLeft(t, chosen, if best.Some? then t.connectors[best.value].cost else LINK_COST_BROKEN);
        return;
      }
    }
    ChosenAreCandidates(t, chosen);
  }

  lemma NothingChosen(t: TwoHop)
    ensures Cheapest(t, {})
  {
  }

  lemma ChosenAreCandidates(t: TwoHop, chosen: set<NeighborEntry>)
    requires Cheapest(t, chosen)
    ensures |chosen| <= |Candidates(t)|
  {
    SubsetSize(chosen, Candidates(t));
  }

  /** The cheapest unmarked connector is the next choice. */
  lemma NextIsCheapest(t: TwoHop, chosen: set<NeighborEntry>, i: nat)
    requires Cheapest(t, chosen) && Marked(t, chosen) && i < |t.connectors| && Open(t, i) && Limit(t).Some?
    requires t.connectors[i].cost < Limit(t).value && t.connectors[i].cost < LINK_COST_BROKEN
    requires OpenCostAtLeast(t, t.connectors[i].cost)
    ensures t.connectors[i].nbr !in chosen && Cheapest(t, chosen + {t.connectors[i].nbr})
  {
    ChooseNext(t, chosen, i);
  }

  /** When no unmarked connector is below the limit, every candidate has been chosen. */
  lemma NoneLeft(t: TwoHop, chosen: set<NeighborEntry>, c: nat)
    requires Cheapest(t, chosen) && Marked(t, chosen) && Limit(t).Some?
    requires OpenCostAtLeast(t, c) && (c >= LINK_COST_BROKEN || c >= Limit(t).value)
    ensures chosen == Candidates(t)
  {
    AllChosen(t, chosen);
  }

  /** When no open connector is below the limit, every candidate has been chosen. */
  lemma AllChosen(t: TwoHop, chosen: set<NeighborEntry>)
    requires Cheapest(t, chosen)
    requires forall j :: 0 <= j < |t.connectors| && Useful(t, j) ==> t.connectors[j].nbr in chosen
    ensures chosen == Candidates(t)
  {
  }

  ghost predicate WayAtMost(t: TwoHop, s: NeighborEntry, cost: nat) {
    exists i :: 0 <= i < |t.connectors| && t.connectors[i].nbr == s && t.connectors[i].cost <= cost
  }

  /** What the choice means for a two-hop neighbour: every relay is on a good way to it, there are
      no more than wanted, and a neighbour on a good way is left out only if there are as many
      as wanted, all on ways that cost no more. */
  lemma CoversMeans(t: TwoHop, coverage: nat, chosen: set<NeighborEntry>)
    requires Covers(t, coverage, chosen)
    ensures |chosen| <= coverage
    ensures forall s :: s in chosen ==> exists i: nat :: IsGoodWay(t, i) && t.connectors[i].nbr == s
    ensures forall j: nat :: IsGoodWay(t, j) && t.connectors[j].nbr !in chosen ==>
      |chosen| == coverage && forall s :: s in chosen ==> WayAtMost(t, s, t.connectors[j].cost)
  {
    forall i: nat
      ensures Useful(t, i) <==> IsGoodWay(t, i)
    {
      UsefulIsGood(t, i);
    }
    hide Useful, IsGoodWay;
    forall j: nat | j < |t.connectors| && Useful(t, j) && t.connectors[j].nbr !in chosen
      ensures |chosen| == coverage && forall s :: s in chosen ==> WayAtMost(t, s, t.connectors[j].cost)
    {
      LeftOut(t, coverage, chosen, j);
    }
    forall s | s in chosen
      ensures exists i: nat :: IsGoodWay(t, i) && t.connectors[i].nbr == s
    {
      var i :| 0 <= i < |t.connectors| && Useful(t, i) && t.connectors[i].nbr == s;
    }
    GoodIsInside(t);
  }

  lemma GoodIsInside(t: TwoHop)
    ensures forall i: nat :: IsGoodWay(t, i) ==> i < |t.connectors|
  {
  }

  lemma LeftOut(t: TwoHop, coverage: nat, chosen: set<NeighborEntry>, j: nat)
    requires Covers(t, coverage, chosen) && j < |t.connectors| && Useful(t, j) && t.connectors[j].nbr !in chosen
    ensures |chosen| == coverage && forall s :: s in chosen ==> WayAtMost(t, s, t.connectors[j].cost)
  {
    hide Useful;
    var n := t.connectors[j].nbr;
    assert n in Candidates(t) - chosen;
    SubsetSize(chosen + {n}, Candidates(t));
    forall s | s in chosen
      ensures WayAtMost(t, s, t.connectors[j].cost)
    {
      assert NotCostlier(t, s, n);
      var i :| 0 <= i < |t.connectors| && t.connectors[i].nbr == s && CostBelow(t, i, n);
    }
  }

  ghost function Union(sets: seq<set<NeighborEntry>>): set<NeighborEntry> {
    if sets == [] then {} else Union(sets[..|sets| - 1]) + sets[|sets| - 1]
  }

  lemma UnionSnoc(sets: seq<set<NeighborEntry>>, s: set<NeighborEntry>)
    ensures Union(sets + [s]) == Union(sets) + s
  {
    assert (sets + [s])[..|sets|] == sets;
  }

  /** olsr_calculate_lq_mpr. The relays are the symmetric neighbours that are always willing
      and, for every two-hop neighbour, its cheapest candidates; a change is reported exactly
      when some relay was none before. */
  method CalculateLqMpr(nbrs: seq<NeighborEntry>, twoHops: seq<TwoHop>, coverage: nat)
    returns (changes: bool, ghost chosen: seq<set<NeighborEntry>>)
    requires forall k, i :: 0 <= k < |twoHops| && 0 <= i < |twoHops[k].connectors| ==>
      twoHops[k].connectors[i].nbr in nbrs
    requires forall i, j :: 0 <= i < j < |nbrs| ==> nbrs[i] != nbrs[j]
    modifies nbrs
    ensures |chosen| == |twoHops| && forall k :: 0 <= k < |twoHops| ==> Covers(twoHops[k], coverage, chosen[k])
    ensures forall n :: n in nbrs ==> (n.isMpr <==> (n.sym && n.willAlways) || n in Union(chosen))
    ensures forall n :: n in nbrs ==> n.wasMpr == old(n.isMpr)
    ensures changes <==> exists n :: n in nbrs && n.isMpr && !old(n.isMpr)
  {
    hide Covers;
    ghost var all := set n | n in nbrs;
    changes := Remember(nbrs);
    chosen := [];
    for k := 0 to |twoHops|
      invariant |chosen| == k && forall m :: 0 <= m < k ==> Covers(twoHops[m], coverage, chosen[m])
      invariant forall n :: n in nbrs ==> (n.isMpr <==> (n.sym && n.willAlways) || n in Union(chosen))
      invariant forall n :: n in nbrs ==> n.wasMpr == old(n.isMpr)
      invariant changes <==> exists n :: n in nbrs && n.isMpr && !n.wasMpr
    {
      var more, relays := SelectRelays(twoHops[k], coverage, all);
      UnionSnoc(chosen, relays);
      chosen := chosen + [relays];
      changes := changes || more;
    }
  }

  /** The first pass: remember the previous relays and keep only the always willing. */
  method Remember(nbrs: seq<NeighborEntry>) returns (changes: bool)
    requires forall i, j :: 0 <= i < j < |nbrs| ==> nbrs[i] != nbrs[j]
    modifies nbrs
    ensures forall n :: n in nbrs ==> n.wasMpr == old(n.isMpr) && n.isMpr == (n.sym && n.willAlways)
    ensures changes <==> exists n :: n in nbrs && n.isMpr && !n.wasMpr
  {
    changes := false;
    for i := 0 to |nbrs|
      invariant forall j :: 0 <= j < i ==>
        nbrs[j].wasMpr == old(nbrs[j].isMpr) && nbrs[j].isMpr == (nbrs[j].sym && nbrs[j].willAlways)
      invariant forall j :: i <= j < |nbrs| ==> nbrs[j].isMpr == old(nbrs[j].isMpr)
      invariant changes <==> exists j :: 0 <= j < i && nbrs[j].isMpr && !nbrs[j].wasMpr
    {
      var neigh := nbrs[i];
      neigh.wasMpr := neigh.isMpr;
      neigh.isMpr := false;
      if !neigh.sym || !neigh.willAlways {
        continue;
      }
      neigh.isMpr := true;
      if neigh.isMpr != neigh.wasMpr {
        changes := true;
      }
    }
  }
}
