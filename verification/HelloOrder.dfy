/** Which neighbours a HELLO announces and in which order: type pair by type pair, and in
    list order within a pair. */
module HelloOrder {
  import opened Entries
  import opened HelloFormat

  /** The two HELLO serializers walk the link types in different orders. */
  datatype Order = Lq | Classic

  /** The j-th link type. */
  function LinkAt(o: Order, j: nat): nat
    requires j < 4
  {
    match o
    case Classic => j
    case Lq => if j == 0 then SYM_LINK else if j == 1 then UNSPEC_LINK else if j == 2 then ASYM_LINK else LOST_LINK
  }

  /** The q-th pair of a neighbour type and a link type. */
  function NeighOf(q: nat): nat {
    q / 4
  }

  function LinkOf(o: Order, q: nat): nat {
    LinkAt(o, q % 4)
  }

  /** The place of the type pair of n. */
  function PlaceOf(o: Order, n: Neighbor): nat {
    4 * n.neighType +
    match o
    case Classic => n.linkType
    case Lq => if n.linkType == SYM_LINK then 0
      else if n.linkType == UNSPEC_LINK then 1 else if n.linkType == ASYM_LINK then 2 else 3
  }

  const ALL_PAIRS: nat := 12

  lemma PlaceIsUnique(o: Order, q: nat, n: Neighbor)
    requires q < ALL_PAIRS
    ensures n.neighType == NeighOf(q) && n.linkType == LinkOf(o, q) <==> Listed(n) && q == PlaceOf(o, n)
    ensures Listed(n) ==> PlaceOf(o, n) < ALL_PAIRS
  {
  }

  lemma PairAt(o: Order, i: nat, j: nat)
    requires j < 4
    ensures NeighOf(4 * i + j) == i && LinkOf(o, 4 * i + j) == LinkAt(o, j)
  {
  }

  /** The neighbours of one type pair, in list order. */
  function Matching(ns: seq<Neighbor>, neighType: nat, linkType: nat): seq<Neighbor> {
    if ns == [] then []
    else Matching(ns[..|ns| - 1], neighType, linkType) + Single(ns[|ns| - 1], neighType, linkType)
  }

  function Single(n: Neighbor, neighType: nat, linkType: nat): seq<Neighbor> {
    if n.neighType == neighType && n.linkType == linkType then [n] else []
  }

  /** The neighbours of the q-th type pair. */
  function MatchingAt(o: Order, ns: seq<Neighbor>, q: nat): seq<Neighbor> {
    Matching(ns, NeighOf(q), LinkOf(o, q))
  }

  /** The neighbours of the first q type pairs. */
  function Grouped(o: Order, ns: seq<Neighbor>, q: nat): seq<Neighbor> {
    if q == 0 then [] else Grouped(o, ns, q - 1) + MatchingAt(o, ns, q - 1)
  }

  lemma SumCount(a: seq<Neighbor>, b: seq<Neighbor>, n: Neighbor)
    ensures multiset(a + b)[n] == multiset(a)[n] + multiset(b)[n]
  {
  }

  lemma {:induction false} MatchingCount(ns: seq<Neighbor>, i: nat, l: nat, n: Neighbor)
    ensures multiset(Matching(ns, i, l))[n] == if n.neighType == i && n.linkType == l then multiset(ns)[n] else 0
  {
    if ns != [] {
      var init, m := ns[..|ns| - 1], ns[|ns| - 1];
      MatchingCount(init, i, l, n);
      AddCount(ns, n);
      SumCount(Matching(init, i, l), Single(m, i, l), n);
    }
  }

  lemma AddCount(ns: seq<Neighbor>, n: Neighbor)
    requires ns != []
    ensures multiset(ns)[n] == multiset(ns[..|ns| - 1])[n] + if ns[|ns| - 1] == n then 1 else 0
  {
    assert ns == ns[..|ns| - 1] + [ns[|ns| - 1]];
  }

  lemma {:induction false} GroupedCount(o: Order, ns: seq<Neighbor>, q: nat, n: Neighbor)
    requires q <= ALL_PAIRS
    ensures multiset(Grouped(o, ns, q))[n] == if Listed(n) && PlaceOf(o, n) < q then multiset(ns)[n] else 0
  {
    hide NeighOf, LinkOf, PlaceOf, Matching;
    if q > 0 {
      GroupedCount(o, ns, q - 1, n);
      MatchingCount(ns, NeighOf(q - 1), LinkOf(o, q - 1), n);
      PlaceIsUnique(o, q - 1, n);
      SumCount(Grouped(o, ns, q - 1), MatchingAt(o, ns, q - 1), n);
    }
  }

  /** A neighbour is announced as often as it is in the list if a link code can carry its
      type pair, and not at all otherwise. */
  lemma AnnouncedOnce(o: Order, ns: seq<Neighbor>, n: Neighbor)
    ensures multiset(Grouped(o, ns, ALL_PAIRS))[n] == if Listed(n) then multiset(ns)[n] else 0
  {
    GroupedCount(o, ns, ALL_PAIRS, n);
    PlaceIsUnique(o, 0, n);
  }

  lemma NoMoreThanAll(o: Order, ns: seq<Neighbor>)
    ensures |Grouped(o, ns, ALL_PAIRS)| <= |ns|
  {
    var g := Grouped(o, ns, ALL_PAIRS);
    hide Grouped;
    forall n: Neighbor
      ensures multiset(g)[n] <= multiset(ns)[n]
    {
      AnnouncedOnce(o, ns, n);
    }
    assert multiset(ns) == multiset(g) + (multiset(ns) - multiset(g));
    assert |multiset(g)| == |g| && |multiset(ns)| == |ns|;
  }

  /** Matching, one neighbour further. */
  lemma MatchingStep(ns: seq<Neighbor>, k: nat, i: nat, l: nat)
    requires k < |ns|
    ensures Matching(ns[..k + 1], i, l) == Matching(ns[..k], i, l) + Single(ns[k], i, l)
    ensures |Matching(ns[..k + 1], i, l)| <= |Matching(ns, i, l)|
  {
    assert ns[..k + 1][..k] == ns[..k];
    MatchingPrefix(ns, k + 1, i, l);
  }

  lemma {:induction false} MatchingPrefix(ns: seq<Neighbor>, k: nat, i: nat, l: nat)
    requires k <= |ns|
    ensures |Matching(ns[..k], i, l)| <= |Matching(ns, i, l)|
  {
    if k < |ns| {
      var init := ns[..|ns| - 1];
      assert init[..k] == ns[..k];
      MatchingPrefix(init, k, i, l);
    } else {
      assert ns[..k] == ns;
    }
  }

  // ----- Sizes

  lemma {:induction false} EntriesSizeAdds(z: Sizes, m: nat, n: nat)
    ensures EntriesSize(z, m + n) == EntriesSize(z, m) + EntriesSize(z, n)
  {
    if n > 0 {
      EntriesSizeAdds(z, m, n - 1);
    }
  }

  lemma {:induction false} EntriesSizeMonotone(z: Sizes, m: nat, n: nat)
    requires m <= n
    ensures EntriesSize(z, m) <= EntriesSize(z, n)
  {
    EntriesSizeAdds(z, m, n - m);
  }

  /** The bytes that a group with these members takes up. */
  function GroupRoom(z: Sizes, ms: seq<Neighbor>): nat {
    if ms == [] then 0 else GROUP_HEADER + EntriesSize(z, |ms|)
  }

  lemma NothingYet(z: Sizes, ns: seq<Neighbor>, i: nat, l: nat)
    ensures Matching(ns[..0], i, l) == [] && GroupRoom(z, []) == 0
  {
  }

  lemma GroupRoomStep(z: Sizes, some: seq<Neighbor>, n: Neighbor, all: seq<Neighbor>)
    requires |some| + 1 <= |all|
    ensures GroupRoom(z, some + [n]) == GroupRoom(z, some) + EntrySize(z) + (if some == [] then GROUP_HEADER else 0)
    ensures GroupRoom(z, some + [n]) <= GroupRoom(z, all)
  {
    EntriesSizeMonotone(z, |some| + 1, |all|);
  }

  /** The bytes that the groups of the first q type pairs take up. */
  function TotalRoom(z: Sizes, o: Order, ns: seq<Neighbor>, q: nat): nat {
    if q == 0 then 0 else TotalRoom(z, o, ns, q - 1) + GroupRoom(z, MatchingAt(o, ns, q - 1))
  }

  lemma {:induction false} TotalRoomPrefix(z: Sizes, o: Order, ns: seq<Neighbor>, p: nat, q: nat)
    requires p <= q
    ensures TotalRoom(z, o, ns, p) <= TotalRoom(z, o, ns, q)
    ensures Grouped(o, ns, p) != [] ==> Grouped(o, ns, q) != []
  {
    if p < q {
      TotalRoomPrefix(z, o, ns, p, q - 1);
    }
  }

  function HeadersSize(o: Order, ns: seq<Neighbor>, q: nat): nat {
    if q == 0 then 0 else HeadersSize(o, ns, q - 1) + if MatchingAt(o, ns, q - 1) == [] then 0 else GROUP_HEADER
  }

  lemma {:induction false} RoomIsSum(z: Sizes, o: Order, ns: seq<Neighbor>, q: nat)
    ensures TotalRoom(z, o, ns, q) == EntriesSize(z, |Grouped(o, ns, q)|) + HeadersSize(o, ns, q)
  {
    hide MatchingAt;
    if q > 0 {
      RoomIsSum(z, o, ns, q - 1);
      EntriesSizeAdds(z, |Grouped(o, ns, q - 1)|, |MatchingAt(o, ns, q - 1)|);
    }
  }

  lemma {:induction false} RoomForOne(z: Sizes, o: Order, ns: seq<Neighbor>, q: nat)
    ensures Grouped(o, ns, q) != [] ==> GROUP_HEADER + EntrySize(z) <= TotalRoom(z, o, ns, q)
  {
    hide MatchingAt;
    if q > 0 {
      RoomForOne(z, o, ns, q - 1);
    }
  }

  /** A header for every type pair that occurs, and an entry for every neighbour, is enough. */
  lemma ExpectedCovers(z: Sizes, o: Order, ns: seq<Neighbor>)
    ensures TotalRoom(z, o, ns, ALL_PAIRS) <= EntriesSize(z, |ns|) + HeadersSize(o, ns, ALL_PAIRS)
    ensures Grouped(o, ns, ALL_PAIRS) != [] ==> GROUP_HEADER + EntrySize(z) <= TotalRoom(z, o, ns, ALL_PAIRS)
  {
    hide Grouped, TotalRoom, HeadersSize;
    RoomIsSum(z, o, ns, ALL_PAIRS);
    NoMoreThanAll(o, ns);
    EntriesSizeMonotone(z, |Grouped(o, ns, ALL_PAIRS)|, |ns|);
    RoomForOne(z, o, ns, ALL_PAIRS);
  }

  /** One type pair further. */
  lemma PairStep(z: Sizes, o: Order, ns: seq<Neighbor>, q: nat)
    requires q < ALL_PAIRS
    ensures Grouped(o, ns, q + 1) == Grouped(o, ns, q) + MatchingAt(o, ns, q)
    ensures TotalRoom(z, o, ns, q + 1) == TotalRoom(z, o, ns, q) + GroupRoom(z, MatchingAt(o, ns, q))
    ensures TotalRoom(z, o, ns, q + 1) <= TotalRoom(z, o, ns, ALL_PAIRS)
    ensures MatchingAt(o, ns, q) != [] ==> Grouped(o, ns, ALL_PAIRS) != []
  {
    hide MatchingAt;
    TotalRoomPrefix(z, o, ns, q + 1, ALL_PAIRS);
  }
}
