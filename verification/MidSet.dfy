/** The multiple interface association set: two hash tables, from main addresses to their
    aliases and from aliases to their main address. */
module MidSet {
  import opened Topology

  const HASHSIZE: nat := 128

  // ----- Chained hash tables

  datatype Item<V> = Item(key: Addr, value: V)

  type Table<V> = seq<seq<Item<V>>>

  function Bucket(hash: Addr -> nat, a: Addr): (b: nat)
    ensures b < HASHSIZE
  {
    hash(a) % HASHSIZE
  }

  function Get<V>(m: map<Addr, V>, a: Addr): Option<V> {
    if a in m then Some(m[a]) else None
  }

  /** The first item with key a. */
  function Lookup<V>(items: seq<Item<V>>, a: Addr): Option<V> {
    if items == [] then None else if items[0].key == a then Some(items[0].value) else Lookup(items[1..], a)
  }

  function Remove<V>(items: seq<Item<V>>, a: Addr): seq<Item<V>> {
    if items == [] then [] else if items[0].key == a then items[1..] else [items[0]] + Remove(items[1..], a)
  }

  function Replace<V>(items: seq<Item<V>>, a: Addr, v: V): seq<Item<V>> {
    if items == [] then []
      else if items[0].key == a then [Item(a, v)] + items[1..] else [items[0]] + Replace(items[1..], a, v)
  }

  ghost predicate Unique<V>(items: seq<Item<V>>) {
    forall i, j :: 0 <= i < j < |items| ==> items[i].key != items[j].key
  }

  lemma {:induction false} LookupFinds<V>(items: seq<Item<V>>, i: nat)
    requires Unique(items) && i < |items|
    ensures Lookup(items, items[i].key) == Some(items[i].value)
  {
    if i > 0 {
      assert items[0].key != items[i].key;
      LookupFinds(items[1..], i - 1);
    }
  }

  lemma {:induction false} LookupMisses<V>(items: seq<Item<V>>, a: Addr)
    ensures Lookup(items, a) == None <==> forall i :: 0 <= i < |items| ==> items[i].key != a
  {
    if items != [] {
      LookupMisses(items[1..], a);
      assert forall i :: 1 <= i < |items| ==> items[i] == items[1..][i - 1];
    }
  }

  lemma {:induction false} RemoveLookup<V>(items: seq<Item<V>>, a: Addr, x: Addr)
    requires Unique(items)
    ensures Lookup(Remove(items, a), x) == if x == a then None else Lookup(items, x)
  {
    if items != [] {
      if items[0].key == a {
        LookupMisses(items[1..], a);
        assert forall i :: 0 <= i < |items[1..]| ==> items[1..][i] == items[i + 1];
      } else {
        RemoveLookup(items[1..], a, x);
      }
    }
  }

  lemma {:induction false} RemoveKeeps<V>(items: seq<Item<V>>, a: Addr)
    requires Unique(items)
    ensures Unique(Remove(items, a)) && forall i :: 0 <= i < |Remove(items, a)| ==> Remove(items, a)[i] in items
  {
    if items != [] && items[0].key != a {
      RemoveKeeps(items[1..], a);
      var r := Remove(items[1..], a);
      forall i | 0 <= i < |r|
        ensures r[i] in items && r[i].key != items[0].key
      {
        var j :| 0 <= j < |items[1..]| && items[1..][j] == r[i];
        assert items[j + 1] == r[i];
      }
    }
  }

  lemma {:induction false} ReplaceLookup<V>(items: seq<Item<V>>, a: Addr, v: V, x: Addr)
    requires Lookup(items, a).Some?
    ensures Lookup(Replace(items, a, v), x) == if x == a then Some(v) else Lookup(items, x)
  {
    if items[0].key != a {
      ReplaceLookup(items[1..], a, v, x);
    }
  }

  lemma {:induction false} ReplaceKeeps<V>(items: seq<Item<V>>, a: Addr, v: V)
    ensures |Replace(items, a, v)| == |items|
    ensures forall i :: 0 <= i < |items| ==> Replace(items, a, v)[i].key == items[i].key
  {
    if items != [] && items[0].key != a {
      ReplaceKeeps(items[1..], a, v);
      forall i | 0 < i < |items|
        ensures Replace(items, a, v)[i].key == items[i].key
      {
        assert Replace(items, a, v)[i] == Replace(items[1..], a, v)[i - 1] && items[i] == items[1..][i - 1];
      }
    }
  }

  /** Every item is in the bucket of its key, and no key occurs twice. */
  ghost predicate Placed<V>(items: seq<Item<V>>, hash: Addr -> nat, b: nat) {
    Unique(items) && forall i :: 0 <= i < |items| ==> Bucket(hash, items[i].key) == b
  }

  /** The table holds exactly the given map. */
  ghost predicate Implements<V(!new)>(t: Table<V>, hash: Addr -> nat, m: map<Addr, V>) {
    && |t| == HASHSIZE
    && (forall b :: 0 <= b < HASHSIZE ==> Placed(t[b], hash, b))
    && (forall a :: Lookup(t[Bucket(hash, a)], a) == Get(m, a))
  }

  lemma PutImplements<V(!new)>(t: Table<V>, hash: Addr -> nat, m: map<Addr, V>, k: Addr, v: V)
    requires Implements(t, hash, m) && k !in m
    ensures var b := Bucket(hash, k);
      Implements(t[b := [Item(k, v)] + t[b]], hash, m[k := v])
  {
    var b := Bucket(hash, k);
    LookupMisses(t[b], k);
    var items := [Item(k, v)] + t[b];
    assert Placed(items, hash, b);
    assert items[1..] == t[b];
  }

  lemma RemoveImplements<V(!new)>(t: Table<V>, hash: Addr -> nat, m: map<Addr, V>, k: Addr)
    requires Implements(t, hash, m)
    ensures var b := Bucket(hash, k);
      Implements(t[b := Remove(t[b], k)], hash, m - {k})
  {
    var b := Bucket(hash, k);
    var items := Remove(t[b], k);
    RemoveKeeps(t[b], k);
    assert Placed(items, hash, b);
    forall a | Bucket(hash, a) == b
      ensures Lookup(items, a) == Get(m - {k}, a)
    {
      RemoveLookup(t[b], k, a);
    }
  }

  lemma ReplaceImplements<V(!new)>(t: Table<V>, hash: Addr -> nat, m: map<Addr, V>, k: Addr, v: V)
    requires Implements(t, hash, m) && k in m
    ensures var b := Bucket(hash, k);
      Implements(t[b := Replace(t[b], k, v)], hash, m[k := v])
  {
    hide Lookup, Replace, Placed, Bucket;
    var b := Bucket(hash, k);
    var items := Replace(t[b], k, v);
    assert Lookup(t[b], k) == Get(m, k);
    ReplacePlaced(t[b], hash, b, k, v);
    forall a | Bucket(hash, a) == b
      ensures Lookup(items, a) == Get(m[k := v], a)
    {
      ReplaceLookup(t[b], k, v, a);
    }
  }

  lemma ReplacePlaced<V>(items: seq<Item<V>>, hash: Addr -> nat, b: nat, k: Addr, v: V)
    requires Placed(items, hash, b)
    ensures Placed(Replace(items, k, v), hash, b)
  {
    ReplaceKeeps(items, k, v);
  }

  /** The loop over one bucket. */
  method Search<V>(items: seq<Item<V>>, a: Addr) returns (r: Option<V>)
    ensures r == Lookup(items, a)
  {
    var i := 0;
    while i < |items|
      invariant i <= |items| && Lookup(items, a) == Lookup(items[i..], a)
    {
      if items[i].key == a {
        return Some(items[i].value);
      }
      assert items[i..][1..] == items[i + 1..];
      i := i + 1;
    }
    return None;
  }

  // ----- The associations that the two tables stand for

  /** A list of aliases with their validity times, newest first. */
  type Aliases = seq<Item<nat>>

  /** Main addresses with their aliases, and aliases with their main address. */
  datatype Assoc = Assoc(fwd: map<Addr, Aliases>, owner: map<Addr, Addr>)

  function KeysOf(l: Aliases): set<Addr> {
    set i | 0 <= i < |l| :: l[i].key
  }

  /** The two directions are inverse to each other: an alias is in the list of a main address
      exactly when it belongs to that address, and no list names an alias twice. */
  ghost predicate Inverse(s: Assoc) {
    && (forall m :: m in s.fwd ==> Unique(s.fwd[m]))
    && (forall m, a :: m in s.fwd ==> (a in KeysOf(s.fwd[m]) <==> a in s.owner && s.owner[a] == m))
    && (forall a :: a in s.owner ==> s.owner[a] in s.fwd)
  }

  /** A new alias for a main address, which is registered if it was not. */
  function Add(s: Assoc, m: Addr, a: Addr): Assoc {
    Assoc(s.fwd[m := [Item(a, 0)] + if m in s.fwd then s.fwd[m] else []], s.owner[a := m])
  }

  /** A main address with all its aliases is forgotten. */
  function Delete(s: Assoc, m: Addr): Assoc {
    if m in s.fwd then Assoc(s.fwd - {m}, s.owner - KeysOf(s.fwd[m])) else s
  }

  /** An alias that is announced for m. If the neighbour table knows the alias as a main
      address, what was registered under it is forgotten first. */
  function Insert(s: Assoc, m: Addr, a: Addr, isNeighbor: bool, isValid: bool): Assoc {
    if !isValid then s
    else
      var t := if isNeighbor then Delete(s, a) else s;
      if a in t.owner && t.owner[a] == m then t else Add(t, m, a)
  }

  /** The surroundings of the MID set that a message meets. `neighbors` are the main addresses
      in the neighbour table. */
  datatype Context = Context(denied: set<Addr>, own: set<Addr>, neighbors: set<Addr>)

  /** The neighbour table loses the entries of aliases of m, as long as it has one of m. */
  function Purge(neighbors: set<Addr>, m: Addr, l: Aliases): set<Addr> {
    if l == [] then neighbors
    else
      var n, a := Purge(neighbors, m, l[..|l| - 1]), l[|l| - 1].key;
      if a in n && m in n then n - {a} else n
  }

  /** The neighbour table after an alias a was announced for m: m takes the place of a, and
      if the alias was new all aliases of m are looked up. */
  function NeighborsAfter(s: Assoc, m: Addr, a: Addr, neighbors: set<Addr>, isValid: bool): set<Addr> {
    if !isValid then neighbors
    else
      var moved := if a in neighbors then neighbors - {a} + {m} else neighbors;
      var t := if a in neighbors then Delete(s, a) else s;
      if a in t.owner && t.owner[a] == m then moved else Purge(moved, m, Add(t, m, a).fwd[m])
  }

  /** The MID set and the neighbour table while a message is processed. */
  datatype World = World(s: Assoc, neighbors: set<Addr>)

  /** The aliases of a message, one after the other: own addresses and aliases that already
      have a main address are passed over. */
  function InsertAll(s: Assoc, m: Addr, declared: seq<Addr>, c: Context): World {
    if declared == [] then World(s, c.neighbors)
    else
      var t := InsertAll(s, m, declared[..|declared| - 1], c);
      var a := declared[|declared| - 1];
      if a in c.own || a in t.s.owner then t
      else World(Insert(t.s, m, a, a in t.neighbors, a !in c.denied),
        NeighborsAfter(t.s, m, a, t.neighbors, a !in c.denied))
  }

  lemma {:induction false} PurgeShrinks(neighbors: set<Addr>, m: Addr, l: Aliases)
    ensures Purge(neighbors, m, l) <= neighbors
  {
    if l != [] {
      PurgeShrinks(neighbors, m, l[..|l| - 1]);
    }
  }

  /** Nobody but the originator joins the neighbour table. */
  lemma {:induction false} NeighborsGrowByOne(s: Assoc, m: Addr, declared: seq<Addr>, c: Context)
    ensures InsertAll(s, m, declared, c).neighbors <= c.neighbors + {m}
  {
    if declared != [] {
      var init, a := declared[..|declared| - 1], declared[|declared| - 1];
      NeighborsGrowByOne(s, m, init, c);
      var t := InsertAll(s, m, init, c);
      var moved := if a in t.neighbors then t.neighbors - {a} + {m} else t.neighbors;
      var d := if a in t.neighbors then Delete(t.s, a) else t.s;
      PurgeShrinks(moved, m, Add(d, m, a).fwd[m]);
    }
  }

  /** An alias stays if the message declares it, or if it is still valid and the message
      declares anything at all. */
  predicate Stays(l: Item<nat>, declared: seq<Addr>, timedOut: nat -> bool) {
    l.key in declared || (!timedOut(l.value) && declared != [])
  }

  function PruneOne(s: Assoc, m: Addr, l: Item<nat>, declared: seq<Addr>, timedOut: nat -> bool, stamp: nat): Assoc {
    if m !in s.fwd then s
    else if !Stays(l, declared, timedOut) then Assoc(s.fwd[m := Remove(s.fwd[m], l.key)], s.owner - {l.key})
    else if l.key in declared then s.(fwd := s.fwd[m := Replace(s.fwd[m], l.key, stamp)])
    else s
  }

  /** Pruning by the given items of the alias list. */
  function Prune(s: Assoc, m: Addr, ls: Aliases, declared: seq<Addr>, timedOut: nat -> bool, stamp: nat): Assoc {
    if ls == [] then s
    else PruneOne(Prune(s, m, ls[..|ls| - 1], declared, timedOut, stamp), m, ls[|ls| - 1], declared, timedOut, stamp)
  }

  lemma AddInverse(s: Assoc, m: Addr, a: Addr)
    requires Inverse(s) && a !in s.owner
    ensures Inverse(Add(s, m, a))
  {
    var l := if m in s.fwd then s.fwd[m] else [];
    var l' := [Item(a, 0)] + l;
    KeysCons(a, l);
    assert a !in KeysOf(l);
    assert Unique(l');
  }

  lemma KeysCons(a: Addr, l: Aliases)
    ensures KeysOf([Item(a, 0)] + l) == KeysOf(l) + {a}
  {
    var l' := [Item(a, 0)] + l;
    assert forall i :: 0 <= i < |l| ==> l'[i + 1] == l[i];
    assert l'[0].key == a;
  }

  lemma DeleteInverse(s: Assoc, m: Addr)
    requires Inverse(s)
    ensures Inverse(Delete(s, m))
    ensures forall a :: a in Delete(s, m).owner <==> a in s.owner && s.owner[a] != m
  {
    hide KeysOf, Unique;
    if m in s.fwd {
      forall a
        ensures a in KeysOf(s.fwd[m]) <==> a in s.owner && s.owner[a] == m
      {
      }
      assert forall a :: a in Delete(s, m).owner <==> a in s.owner && s.owner[a] != m;
    }
  }

  lemma InsertInverse(s: Assoc, m: Addr, a: Addr, isNeighbor: bool, isValid: bool)
    requires Inverse(s) && (a in s.owner ==> s.owner[a] == m)
    ensures Inverse(Insert(s, m, a, isNeighbor, isValid))
  {
    hide Inverse;
    DeleteInverse(s, a);
    var t := if isNeighbor then Delete(s, a) else s;
    if a !in t.owner {
      AddInverse(t, m, a);
    }
  }

  lemma {:induction false} InsertAllInverse(s: Assoc, m: Addr, declared: seq<Addr>, c: Context)
    requires Inverse(s)
    ensures Inverse(InsertAll(s, m, declared, c).s)
  {
    if declared != [] {
      hide Inverse;
      InsertAllInverse(s, m, declared[..|declared| - 1], c);
      var t, a := InsertAll(s, m, declared[..|declared| - 1], c), declared[|declared| - 1];
      if a !in t.s.owner {
        InsertInverse(t.s, m, a, a in t.neighbors, a !in c.denied);
      }
    }
  }

  lemma KeysLookup(l: Aliases, a: Addr)
    ensures a in KeysOf(l) <==> Lookup(l, a).Some?
  {
    LookupMisses(l, a);
  }

  lemma PruneOneInverse(s: Assoc, m: Addr, l: Item<nat>, declared: seq<Addr>, timedOut: nat -> bool, stamp: nat)
    requires Inverse(s) && m in s.fwd && l.key in KeysOf(s.fwd[m])
    ensures var t := PruneOne(s, m, l, declared, timedOut, stamp);
      Inverse(t) && m in t.fwd && KeysOf(s.fwd[m]) - {l.key} <= KeysOf(t.fwd[m])
  {
    var was := s.fwd[m];
    if !Stays(l, declared, timedOut) {
      RemoveKeys(was, l.key);
      hide KeysOf, Unique, Stays;
      ShorterInverse(s, m, l.key, Remove(was, l.key));
    } else if l.key in declared {
      ReplaceKeys(was, l.key, stamp);
      hide KeysOf, Unique, Stays;
      SameKeysInverse(s, m, Replace(was, l.key, stamp));
    }
  }

  lemma ShorterInverse(s: Assoc, m: Addr, a: Addr, l: Aliases)
    requires Inverse(s) && m in s.fwd && a in KeysOf(s.fwd[m]) && Unique(l) && KeysOf(l) == KeysOf(s.fwd[m]) - {a}
    ensures Inverse(Assoc(s.fwd[m := l], s.owner - {a}))
  {
    hide KeysOf, Unique;
    assert a in s.owner && s.owner[a] == m;
  }

  lemma SameKeysInverse(s: Assoc, m: Addr, l: Aliases)
    requires Inverse(s) && m in s.fwd && Unique(l) && KeysOf(l) == KeysOf(s.fwd[m])
    ensures Inverse(s.(fwd := s.fwd[m := l]))
  {
    hide KeysOf, Unique;
  }

  lemma RemoveKeys(l: Aliases, a: Addr)
    requires Unique(l)
    ensures Unique(Remove(l, a)) && KeysOf(Remove(l, a)) == KeysOf(l) - {a}
  {
    RemoveKeeps(l, a);
    forall x
      ensures x in KeysOf(Remove(l, a)) <==> x in KeysOf(l) && x != a
    {
      KeysLookup(l, x);
      KeysLookup(Remove(l, a), x);
      RemoveLookup(l, a, x);
    }
  }

  lemma ReplaceKeys(l: Aliases, a: Addr, v: nat)
    requires Unique(l) && a in KeysOf(l)
    ensures Unique(Replace(l, a, v)) && KeysOf(Replace(l, a, v)) == KeysOf(l)
  {
    ReplaceKeeps(l, a, v);
  }

  /** Pruning by some items of the alias list, in any order and each once. */
  lemma {:induction false} PruneInverse(s: Assoc, m: Addr, ls: Aliases, declared: seq<Addr>, timedOut: nat -> bool,
      stamp: nat)
    requires Inverse(s) && m in s.fwd && Unique(ls) && forall i :: 0 <= i < |ls| ==> ls[i].key in KeysOf(s.fwd[m])
    ensures var t := Prune(s, m, ls, declared, timedOut, stamp);
      Inverse(t) && m in t.fwd && KeysOf(s.fwd[m]) - KeysOf(ls) <= KeysOf(t.fwd[m])
  {
    if ls != [] {
      var init, l := ls[..|ls| - 1], ls[|ls| - 1];
      PruneInverse(s, m, init, declared, timedOut, stamp);
      assert ls == init + [l];
      KeysSnoc(init, l);
      var t := Prune(s, m, init, declared, timedOut, stamp);
      assert l.key !in KeysOf(init);
      hide Inverse, KeysOf, PruneOne;
      PruneOneInverse(t, m, l, declared, timedOut, stamp);
    }
  }

  lemma KeysSnoc(l: Aliases, x: Item<nat>)
    ensures KeysOf(l + [x]) == KeysOf(l) + {x.key}
  {
    var l' := l + [x];
    assert forall i :: 0 <= i < |l| ==> l'[i] == l[i];
    assert l'[|l|] == x;
  }

  /** The loop over the aliases of m that removes their entries from the neighbour table. */
  method PurgeNeighbors(neighbors: set<Addr>, m: Addr, l: Aliases) returns (now: set<Addr>)
    ensures now == Purge(neighbors, m, l)
  {
    now := neighbors;
    for i := 0 to |l|
      invariant now == Purge(neighbors, m, l[..i])
    {
      assert l[..i + 1][..i] == l[..i];
      if l[i].key in now && m in now {
        now := now - {l[i].key};
      }
    }
    assert l[..|l|] == l;
  }

  // ----- The two tables

  class MidTables {
    const hash: Addr -> nat
    var mid: Table<Aliases>
    var reverse: Table<Addr>
    ghost var state: Assoc

    ghost predicate Tables()
      reads this
    {
      Implements(mid, hash, state.fwd) && Implements(reverse, hash, state.owner)
    }

    ghost predicate Valid()
      reads this
    {
      Tables() && Inverse(state)
    }

    constructor (hash: Addr -> nat)
      ensures Valid() && this.hash == hash && state == Assoc(map[], map[])
    {
      this.hash := hash;
      mid := seq(HASHSIZE, _ => []);
      reverse := seq(HASHSIZE, _ => []);
      state := Assoc(map[], map[]);
    }

    /** mid_lookup_main_addr: the bucket walk agrees with the plain map. */
    method LookupMainAddr(a: Addr) returns (r: Option<Addr>)
      requires Tables()
      ensures r == Get(state.owner, a)
    {
      r := Search(reverse[Bucket(hash, a)], a);
    }

    /** mid_lookup_aliases */
    method LookupAliases(m: Addr) returns (r: Option<Aliases>)
      requires Tables()
      ensures r == Get(state.fwd, m)
    {
      r := Search(mid[Bucket(hash, m)], m);
    }

    /** DEQUEUE_ELEM of an alias from the reverse table. */
    method Unlink(a: Addr)
      requires Tables()
      modifies this`reverse, this`state
      ensures Tables() && state == old(state).(owner := old(state).owner - {a})
    {
      hide Implements, Remove;
      var b := Bucket(hash, a);
      RemoveImplements(reverse, hash, state.owner, a);
      ReverseSize();
      reverse := reverse[b := Remove(reverse[b], a)];
      state := state.(owner := state.owner - {a});
    }

    lemma ReverseSize()
      requires Tables()
      ensures |reverse| == |mid| == HASHSIZE
    {
    }

    /** olsr_delete_mid_entry: every alias leaves the reverse table, then the entry goes. */
    method DeleteEntry(m: Addr)
      requires Valid() && m in state.fwd
      modifies this`mid, this`reverse, this`state
      ensures Valid() && state == Delete(old(state), m)
    {
      hide Implements, Inverse;
      var found := LookupAliases(m);
      var l := found.value;
      DeleteInverse(state, m);
      assert KeysOf(l[..0]) == {};
      for i := 0 to |l|
        invariant Tables() && state == Assoc(old(state).fwd, old(state).owner - KeysOf(l[..i]))
      {
        assert l[..i + 1] == l[..i] + [l[i]];
        KeysSnoc(l[..i], l[i]);
        Unlink(l[i].key);
      }
      assert l[..|l|] == l;
      var b := Bucket(hash, m);
      RemoveImplements(mid, hash, state.fwd, m);
      ReverseSize();
      mid := mid[b := Remove(mid[b], m)];
      state := Assoc(state.fwd - {m}, state.owner);
    }

    /** insert_mid_tuple */
    method InsertTuple(m: Addr, a: Addr, neighbors: set<Addr>) returns (inserted: bool, now: set<Addr>)
      requires Valid() && (a in state.owner ==> state.owner[a] == m)
      modifies this`mid, this`reverse, this`state
      ensures Valid() && (inserted <==> a !in old(state).owner)
      ensures state == if inserted then Add(old(state), m, a) else old(state)
      ensures now == if inserted then Purge(neighbors, m, Add(old(state), m, a).fwd[m]) else neighbors
    {
      hide Implements, Inverse, Replace;
      var entry := LookupAliases(m);
      var registered := LookupMainAddr(a);
      if registered.Some? && registered.value == m {
        return false, neighbors;
      }
      AddInverse(state, m, a);
      ReverseSize();
      PutImplements(reverse, hash, state.owner, a, m);
      var b := Bucket(hash, m);
      var ra := Bucket(hash, a);
      var l := [Item(a, 0)] + if entry.Some? then entry.value else [];
      if entry.Some? {
        ReplaceImplements(mid, hash, state.fwd, m, l);
        mid := mid[b := Replace(mid[b], m, l)];
      } else {
        PutImplements(mid, hash, state.fwd, m, l);
        mid := mid[b := [Item(m, l)] + mid[b]];
      }
      reverse := reverse[ra := [Item(a, m)] + reverse[ra]];
      state := Add(state, m, a);
      now := PurgeNeighbors(neighbors, m, l);
      inserted := true;
    }

    /** insert_mid_alias, for an alias that belongs to nobody or to m already. */
    method InsertAlias(m: Addr, a: Addr, neighbors: set<Addr>, isValid: bool) returns (now: set<Addr>)
      requires Valid() && (a in state.owner ==> state.owner[a] == m)
      modifies this`mid, this`reverse, this`state
      ensures Valid() && state == Insert(old(state), m, a, a in neighbors, isValid)
      ensures now == NeighborsAfter(old(state), m, a, neighbors, isValid)
    {
      hide Implements, Inverse, Purge;
      now := neighbors;
      if !isValid {
        return;
      }
      if a in neighbors {
        now := now - {a} + {m};
        var old_ := LookupAliases(a);
        DeleteInverse(state, a);
        if old_.Some? {
          DeleteEntry(a);
        }
      }
      var inserted;
      inserted, now := InsertTuple(m, a, now);
    }

    /** olsr_prune_aliases */
    method PruneAliases(m: Addr, declared: seq<Addr>, timedOut: nat -> bool, stamp: nat)
      requires Valid()
      modifies this`mid, this`reverse, this`state
      ensures Valid()
      ensures var s := old(state);
        state == if m in s.fwd then Prune(s, m, s.fwd[m], declared, timedOut, stamp) else s
    {
      hide Implements, Inverse, PruneOne;
      var entry := LookupAliases(m);
      if entry == None {
        return;
      }
      var l := entry.value;
      ListFacts(m);
      for i := 0 to |l|
        invariant Tables() && state == Prune(old(state), m, l[..i], declared, timedOut, stamp)
      {
        assert l[..i + 1][..i] == l[..i];
        PruneInverse(old(state), m, l[..i], declared, timedOut, stamp);
        PruneItem(m, l[i], declared, timedOut, stamp);
      }
      assert l[..|l|] == l;
      PruneInverse(old(state), m, l, declared, timedOut, stamp);
    }

    lemma ListFacts(m: Addr)
      requires Valid() && m in state.fwd
      ensures Unique(state.fwd[m])
      ensures forall i :: 0 <= i < |state.fwd[m]| ==> state.fwd[m][i].key in KeysOf(state.fwd[m])
    {
    }

    /** One round of the pruning loop. */
    method PruneItem(m: Addr, l: Item<nat>, declared: seq<Addr>, timedOut: nat -> bool, stamp: nat)
      requires Tables() && m in state.fwd
      modifies this`mid, this`reverse, this`state
      ensures Tables() && state == PruneOne(old(state), m, l, declared, timedOut, stamp)
    {
      hide Implements, Remove, Replace, Inverse;
      var entry := LookupAliases(m);
      var b := Bucket(hash, m);
      var d := 0;
      while d < |declared| && declared[d] != l.key
        invariant d <= |declared| && l.key !in declared[..d]
      {
        d := d + 1;
      }
      assert declared[..|declared|] == declared;
      ReverseSize();
      var found := d < |declared|;
      if !found {
        if !timedOut(l.value) {
          found := declared != [];
        }
      } else {
        ReplaceImplements(mid, hash, state.fwd, m, Replace(entry.value, l.key, stamp));
        mid := mid[b := Replace(mid[b], m, Replace(entry.value, l.key, stamp))];
        state := state.(fwd := state.fwd[m := Replace(entry.value, l.key, stamp)]);
      }
      if !found {
        ReplaceImplements(mid, hash, state.fwd, m, Remove(entry.value, l.key));
        mid := mid[b := Replace(mid[b], m, Remove(entry.value, l.key))];
        state := state.(fwd := state.fwd[m := Remove(entry.value, l.key)]);
        Unlink(l.key);
      }
    }

    /** olsr_input_mid */
    method InputMid(m: Addr, declared: seq<Addr>, fromSym: bool, c: Context, timedOut: nat -> bool, stamp: nat)
        returns (forward: bool)
      requires Valid()
      modifies this`mid, this`reverse, this`state
      ensures Valid() && (forward <==> m !in c.denied && fromSym)
      ensures !forward ==> state == old(state)
      ensures forward ==> state == Processed(old(state), m, declared, c, timedOut, stamp)
    {
      hide Implements, Inverse, Insert, NeighborsAfter;
      var neighbors := c.neighbors;
      if m in c.denied {
        return false;
      }
      if !fromSym {
        return false;
      }
      for k := 0 to |declared|
        invariant Valid() && World(state, neighbors) == InsertAll(old(state), m, declared[..k], c)
      {
        assert declared[..k + 1][..k] == declared[..k];
        var a := declared[k];
        if a in c.own {
          continue;
        }
        var main := LookupMainAddr(a);
        if main == None {
          neighbors := InsertAlias(m, a, neighbors, a !in c.denied);
        }
      }
      assert declared[..|declared|] == declared;
      PruneAliases(m, declared, timedOut, stamp);
      return true;
    }

    /** olsr_hello_tap: the sender address of a HELLO from another main address is an alias. */
    method HelloTap(m: Addr, from: Addr, c: Context)
      requires Valid()
      modifies this`mid, this`reverse, this`state
      ensures Valid()
      ensures state == if m != from && from !in c.denied && (from in old(state).owner ==> old(state).owner[from] == m)
        then Insert(old(state), m, from, from in c.neighbors, true) else old(state)
    {
      hide Implements, Inverse, Insert;
      if m != from {
        if from !in c.denied {
          var main := LookupMainAddr(from);
          if main == None || main.value == m {
            var now := InsertAlias(m, from, c.neighbors, from !in c.denied);
          }
        }
      }
    }
  }

  /** Everything that happens to the MID set. `Gone` is expiry, deletion and cleanup. */
  datatype Event =
    | Mid(m: Addr, declared: seq<Addr>, fromSym: bool, c: Context, timedOut: nat -> bool, stamp: nat)
    | Heard(m: Addr, from: Addr, c: Context)
    | Gone(m: Addr)

  /** In every run the tables stay inverse to each other, and every lookup of an alias or of a
      main address agrees with the other table. */
  method Run(tables: MidTables, evs: seq<Event>, a: Addr, m: Addr)
      returns (main: Option<Addr>, aliases: Option<Aliases>)
    requires tables.Valid()
    modifies tables
    ensures tables.Valid()
    ensures main == Some(m) <==> aliases.Some? && a in KeysOf(aliases.value)
  {
    for k := 0 to |evs|
      invariant tables.Valid()
    {
      hide Implements, Inverse;
      match evs[k]
      case Mid(orig, declared, fromSym, c, timedOut, stamp) =>
        var forward := tables.InputMid(orig, declared, fromSym, c, timedOut, stamp);
      case Heard(orig, from, c) => tables.HelloTap(orig, from, c);
      case Gone(orig) =>
        var entry := tables.LookupAliases(orig);
        if entry.Some? {
          tables.DeleteEntry(orig);
        }
    }
    main := tables.LookupMainAddr(a);
    aliases := tables.LookupAliases(m);
  }

  /** The effect of an accepted MID message. */
  function Processed(s: Assoc, m: Addr, declared: seq<Addr>, c: Context, timedOut: nat -> bool, stamp: nat): Assoc {
    var t := InsertAll(s, m, declared, c).s;
    if m in t.fwd then Prune(t, m, t.fwd[m], declared, timedOut, stamp) else t
  }

  // ----- What a MID message does to each address

  /** The aliases of x belong to nobody any more. */
  function Released(owner: map<Addr, Addr>, x: Addr): map<Addr, Addr> {
    map a | a in owner && owner[a] != x :: owner[a]
  }

  /** Which of the declared aliases are in the neighbour table when it is their turn. */
  function Known(s: Assoc, m: Addr, declared: seq<Addr>, c: Context): (known: seq<bool>)
    ensures |known| == |declared|
  {
    seq(|declared|, k requires 0 <= k < |declared| => declared[k] in InsertAll(s, m, declared[..k], c).neighbors)
  }

  /** Who owns which alias after the aliases of a message from m, without regard to the lists:
      an address that belongs to nobody becomes an alias of m, and if the neighbour table knew
      it as a main address, its own aliases become free. */
  function OwnersAfter(owner: map<Addr, Addr>, m: Addr, declared: seq<Addr>, known: seq<bool>, c: Context)
      : map<Addr, Addr>
    requires |known| == |declared|
  {
    if declared == [] then owner
    else
      var k := |declared| - 1;
      var o, x := OwnersAfter(owner, m, declared[..k], known[..k], c), declared[k];
      if x in c.own || x in c.denied || x in o then o
      else (if known[k] then Released(o, x) else o)[x := m]
  }

  lemma {:induction false} InsertAllOwners(s: Assoc, m: Addr, declared: seq<Addr>, c: Context)
    requires Inverse(s)
    ensures InsertAll(s, m, declared, c).s.owner == OwnersAfter(s.owner, m, declared, Known(s, m, declared, c), c)
  {
    if declared != [] {
      var init, x := declared[..|declared| - 1], declared[|declared| - 1];
      InsertAllOwners(s, m, init, c);
      InsertAllInverse(s, m, init, c);
      KnownPrefix(s, m, declared, c);
      var t := InsertAll(s, m, init, c).s;
      DeleteInverse(t, x);
      DeleteOwner(t, x);
      hide Inverse, KeysOf, Delete, Released, NeighborsAfter, Known;
    }
  }

  lemma KnownPrefix(s: Assoc, m: Addr, declared: seq<Addr>, c: Context)
    requires declared != []
    ensures var k := |declared| - 1;
      Known(s, m, declared, c)[..k] == Known(s, m, declared[..k], c)
      && Known(s, m, declared, c)[k] == (declared[k] in InsertAll(s, m, declared[..k], c).neighbors)
  {
    hide InsertAll;
    var k := |declared| - 1;
    assert forall j :: 0 <= j < k ==> declared[..k][..j] == declared[..j];
  }

  lemma DeleteOwner(s: Assoc, x: Addr)
    requires Inverse(s)
    ensures Delete(s, x).owner == Released(s.owner, x)
  {
    DeleteInverse(s, x);
    hide Inverse, KeysOf;
  }

  /** An alias of m that the message does not declare is in its list with its old stamp. */
  lemma {:induction false} InsertAllKeepsStamp(s: Assoc, m: Addr, declared: seq<Addr>, c: Context, a: Addr)
    requires Inverse(s) && a !in declared
    ensures var t := InsertAll(s, m, declared, c).s;
      Get(t.owner, a) == Some(m) ==> m in s.fwd && m in t.fwd && Lookup(t.fwd[m], a) == Lookup(s.fwd[m], a)
  {
    if declared != [] {
      var init, x := declared[..|declared| - 1], declared[|declared| - 1];
      assert a !in init && a != x;
      InsertAllKeepsStamp(s, m, init, c, a);
      InsertAllInverse(s, m, init, c);
      var t := InsertAll(s, m, init, c);
      hide Inverse, KeysOf, Insert, NeighborsAfter;
      if x !in c.own && x !in t.s.owner {
        InsertKeepsStamp(t.s, m, x, x in t.neighbors, x !in c.denied, a);
      }
    } else {
      hide KeysOf;
    }
  }

  lemma InsertKeepsStamp(t: Assoc, m: Addr, x: Addr, isNeighbor: bool, isValid: bool, a: Addr)
    requires Inverse(t) && a != x && x !in t.owner
    ensures var u := Insert(t, m, x, isNeighbor, isValid);
      Get(u.owner, a) == Some(m) ==>
        Get(t.owner, a) == Some(m) && m in t.fwd && m in u.fwd && Lookup(u.fwd[m], a) == Lookup(t.fwd[m], a)
  {
    DeleteInverse(t, x);
    var d := if isNeighbor then Delete(t, x) else t;
    hide KeysOf, Unique;
    assert x !in d.owner;
    if isValid && m in d.fwd {
      var l := [Item(x, 0)] + d.fwd[m];
      assert l[1..] == d.fwd[m];
    }
  }

  /** The main address of a after an accepted message from m: an alias of m that is not
      declared is dropped once it timed out, or at once if the message declares nothing. */
  function OwnerAfter(s: Assoc, m: Addr, declared: seq<Addr>, c: Context, timedOut: nat -> bool, a: Addr)
      : Option<Addr> {
    var o := OwnersAfter(s.owner, m, declared, Known(s, m, declared, c), c);
    if a !in o then None
    else if o[a] != m || a in declared then Some(o[a])
    else
      var l := if m in s.fwd then Lookup(s.fwd[m], a) else None;
      if l.Some? && !timedOut(l.value) && declared != [] then Some(m) else None
  }

  lemma ProcessedOwner(s: Assoc, m: Addr, declared: seq<Addr>, c: Context, timedOut: nat -> bool, stamp: nat, a: Addr)
    requires Inverse(s)
    ensures Get(Processed(s, m, declared, c, timedOut, stamp).owner, a) == OwnerAfter(s, m, declared, c, timedOut, a)
  {
    hide InsertAll, Prune, OwnersAfter, Known;
    var t := InsertAll(s, m, declared, c).s;
    InsertAllOwners(s, m, declared, c);
    if a !in declared {
      InsertAllKeepsStamp(s, m, declared, c, a);
    }
    InsertAllInverse(s, m, declared, c);
    if m in t.fwd {
      PruneOwner(t, m, t.fwd[m], declared, timedOut, stamp, a);
      KeysLookup(t.fwd[m], a);
      if a in KeysOf(t.fwd[m]) {
        var i :| 0 <= i < |t.fwd[m]| && t.fwd[m][i].key == a;
        LookupFinds(t.fwd[m], i);
      }
    }
  }

  /** Nobody loses an alias to a message unless it declares the owner itself, and that while
      the owner is in the neighbour table; nobody but m gains one; and what was free and
      declared belongs to m, unless m declares itself while it is in the neighbour table. */
  lemma {:induction false} OwnersAfterLaw(owner: map<Addr, Addr>, m: Addr, declared: seq<Addr>, known: seq<bool>,
      c: Context, a: Addr)
    requires |known| == |declared|
    ensures var o := OwnersAfter(owner, m, declared, known, c);
      && (a in owner ==> Get(o, a) == Some(owner[a]) || MetAsNeighbor(declared, known, owner[a]))
      && (a in o ==> o[a] == m || Get(owner, a) == Some(o[a]))
      && (a !in owner && a in o ==> a in declared && a !in c.own && a !in c.denied)
      && (a !in owner && a in declared && a !in c.own && a !in c.denied ==> a in o || MetAsNeighbor(declared, known, m))
  {
    if declared != [] {
      var k := |declared| - 1;
      var init, x := declared[..k], declared[k];
      assert declared == init + [x];
      OwnersAfterLaw(owner, m, init, known[..k], c, a);
      MetLater(declared, known, m);
      if a in owner {
        MetLater(declared, known, owner[a]);
      }
      if known[k] {
        assert MetAsNeighbor(declared, known, x);
      }
      hide MetAsNeighbor;
    }
  }

  ghost predicate MetAsNeighbor(declared: seq<Addr>, known: seq<bool>, x: Addr)
    requires |known| == |declared|
  {
    exists k :: 0 <= k < |declared| && declared[k] == x && known[k]
  }

  lemma MetLater(declared: seq<Addr>, known: seq<bool>, x: Addr)
    requires |known| == |declared| > 0
    ensures var k := |declared| - 1; MetAsNeighbor(declared[..k], known[..k], x) ==> MetAsNeighbor(declared, known, x)
  {
  }

  /** Whoever a message meets in the neighbour table was there before, or is its originator. */
  lemma KnownBefore(s: Assoc, m: Addr, declared: seq<Addr>, c: Context, x: Addr)
    requires MetAsNeighbor(declared, Known(s, m, declared, c), x)
    ensures x in declared && (x in c.neighbors || x == m)
  {
    var k :| 0 <= k < |declared| && declared[k] == x && Known(s, m, declared, c)[k];
    NeighborsGrowByOne(s, m, declared[..k], c);
    hide InsertAll;
  }

  /** A message that declares a neighbour and then its own originator: the originator took
      the place of the neighbour in the table, so its entry is forgotten and the first alias
      with it. */
  lemma SelfDeclarationFrees(m: Addr, x: Addr, timedOut: nat -> bool, stamp: nat)
    requires x != m
    ensures Get(Processed(Assoc(map[], map[]), m, [x, m], Context({}, {}, {x}), timedOut, stamp).owner, x) == None
  {
    var s, c := Assoc(map[], map[]), Context({}, {}, {x});
    InsertAllSnoc(s, m, [], x, c);
    InsertAllSnoc(s, m, [x], m, c);
    assert [] + [x] == [x] && [x] + [m] == [x, m];
    var l := [Item(x, 0)] + [];
    FirstNeighbor(m, x, l);
    var t := InsertAll(s, m, [x, m], c).s;
    assert x in KeysOf(l) by { assert l[0].key == x; }
    hide InsertAll, Prune;
    assert x !in t.owner;
    PruneOwner(t, m, t.fwd[m], [x, m], timedOut, stamp, x);
  }

  lemma FirstNeighbor(m: Addr, x: Addr, l: Aliases)
    requires x != m && l == [Item(x, 0)]
    ensures Purge({x} - {x} + {m}, m, l) == {m}
  {
    assert l[..0] == [];
  }

  lemma InsertAllSnoc(s: Assoc, m: Addr, init: seq<Addr>, a: Addr, c: Context)
    ensures var t := InsertAll(s, m, init, c);
      InsertAll(s, m, init + [a], c) ==
        if a in c.own || a in t.s.owner then t
        else World(Insert(t.s, m, a, a in t.neighbors, a !in c.denied),
          NeighborsAfter(t.s, m, a, t.neighbors, a !in c.denied))
  {
    assert (init + [a])[..|init|] == init;
  }

  lemma {:induction false} PruneOwner(s: Assoc, m: Addr, ls: Aliases, declared: seq<Addr>, timedOut: nat -> bool,
      stamp: nat, a: Addr)
    requires m in s.fwd
    ensures var t := Prune(s, m, ls, declared, timedOut, stamp);
      && m in t.fwd
      && Get(t.owner, a) == (if exists i :: 0 <= i < |ls| && ls[i].key == a && !Stays(ls[i], declared, timedOut)
        then None else Get(s.owner, a))
  {
    if ls != [] {
      var init, l := ls[..|ls| - 1], ls[|ls| - 1];
      PruneOwner(s, m, init, declared, timedOut, stamp, a);
      hide Stays, Remove, Replace;
      assert forall i :: 0 <= i < |init| ==> ls[i] == init[i];
      if exists i :: 0 <= i < |init| && init[i].key == a && !Stays(init[i], declared, timedOut) {
        var i :| 0 <= i < |init| && init[i].key == a && !Stays(init[i], declared, timedOut);
        assert ls[i] == init[i];
      }
    }
  }

  // ----- How old an alias is

  lemma PruneOneStamp(t: Assoc, m: Addr, l: Item<nat>, declared: seq<Addr>, timedOut: nat -> bool, stamp: nat, a: Addr)
    requires Inverse(t) && m in t.fwd && l.key in KeysOf(t.fwd[m])
    ensures var u := PruneOne(t, m, l, declared, timedOut, stamp);
      m in u.fwd && Lookup(u.fwd[m], a) ==
        if a != l.key || (a !in declared && Stays(l, declared, timedOut)) then Lookup(t.fwd[m], a)
        else if a in declared then Some(stamp) else None
  {
    KeysLookup(t.fwd[m], l.key);
    RemoveLookup(t.fwd[m], l.key, a);
    if l.key in declared {
      ReplaceLookup(t.fwd[m], l.key, stamp, a);
    }
  }

  /** Pruning by some items gives the declared ones among them the new stamp. */
  lemma {:induction false} PruneStamps(s: Assoc, m: Addr, ls: Aliases, declared: seq<Addr>, timedOut: nat -> bool,
      stamp: nat, a: Addr)
    requires Inverse(s) && m in s.fwd && Unique(ls) && forall i :: 0 <= i < |ls| ==> ls[i].key in KeysOf(s.fwd[m])
    requires a in declared
    ensures var t := Prune(s, m, ls, declared, timedOut, stamp);
      m in t.fwd && Lookup(t.fwd[m], a) == if a in KeysOf(ls) then Some(stamp) else Lookup(s.fwd[m], a)
  {
    if ls != [] {
      var init, l := ls[..|ls| - 1], ls[|ls| - 1];
      assert ls == init + [l];
      KeysSnoc(init, l);
      assert l.key !in KeysOf(init);
      PruneStamps(s, m, init, declared, timedOut, stamp, a);
      PruneInverse(s, m, init, declared, timedOut, stamp);
      hide Inverse, KeysOf, PruneOne;
      PruneOneStamp(Prune(s, m, init, declared, timedOut, stamp), m, l, declared, timedOut, stamp, a);
    }
  }

  /** After a message every declared alias of its originator carries the new stamp. */
  lemma ProcessedStamp(s: Assoc, m: Addr, declared: seq<Addr>, c: Context, timedOut: nat -> bool, stamp: nat, a: Addr)
    requires Inverse(s) && a in declared
    requires Get(Processed(s, m, declared, c, timedOut, stamp).owner, a) == Some(m)
    ensures var t := Processed(s, m, declared, c, timedOut, stamp);
      m in t.fwd && Lookup(t.fwd[m], a) == Some(stamp)
  {
    hide InsertAll, Prune;
    var t := InsertAll(s, m, declared, c).s;
    InsertAllInverse(s, m, declared, c);
    if m in t.fwd {
      PruneOwner(t, m, t.fwd[m], declared, timedOut, stamp, a);
      ListKeys(t, m);
      PruneStamps(t, m, t.fwd[m], declared, timedOut, stamp, a);
    }
  }

  lemma ListKeys(t: Assoc, m: Addr)
    requires Inverse(t) && m in t.fwd
    ensures Unique(t.fwd[m]) && forall i :: 0 <= i < |t.fwd[m]| ==> t.fwd[m][i].key in KeysOf(t.fwd[m])
  {
  }

  lemma ProcessedInverse(s: Assoc, m: Addr, declared: seq<Addr>, c: Context, timedOut: nat -> bool, stamp: nat)
    requires Inverse(s)
    ensures Inverse(Processed(s, m, declared, c, timedOut, stamp))
  {
    hide InsertAll, Prune;
    var t := InsertAll(s, m, declared, c).s;
    InsertAllInverse(s, m, declared, c);
    if m in t.fwd {
      ListKeys(t, m);
      PruneInverse(t, m, t.fwd[m], declared, timedOut, stamp);
    }
  }

  /** So an alias that a first message declared and a second one does not stays with their
      originator exactly as long as the stamp of the first has not timed out. */
  lemma SecondMessage(s: Assoc, m: Addr, first: seq<Addr>, c: Context, t1: nat -> bool, stamp1: nat,
      second: seq<Addr>, c2: Context, t2: nat -> bool, stamp2: nat, a: Addr)
    requires Inverse(s) && a in first && Get(Processed(s, m, first, c, t1, stamp1).owner, a) == Some(m)
    requires a !in second && second != [] && m !in second
    ensures Get(Processed(Processed(s, m, first, c, t1, stamp1), m, second, c2, t2, stamp2).owner, a) ==
      if t2(stamp1) then None else Some(m)
  {
    var u := Processed(s, m, first, c, t1, stamp1);
    ProcessedStamp(s, m, first, c, t1, stamp1, a);
    ProcessedInverse(s, m, first, c, t1, stamp1);
    hide Processed, Known, OwnersAfter;
    ProcessedOwner(u, m, second, c2, t2, stamp2, a);
    OwnersAfterLaw(u.owner, m, second, Known(u, m, second, c2), c2, a);
    if MetAsNeighbor(second, Known(u, m, second, c2), m) {
      KnownBefore(u, m, second, c2, m);
    }
  }

  /** Without the caller's care an alias would get two main addresses: the guard under which
      insert_mid_tuple keeps the tables inverse is exact. */
  lemma AddKeepsInverseIff(s: Assoc, m: Addr, a: Addr)
    requires Inverse(s) && !(a in s.owner && s.owner[a] == m)
    ensures Inverse(Add(s, m, a)) <==> a !in s.owner
  {
    if a in s.owner {
      var other, t := s.owner[a], Add(s, m, a);
      assert a in KeysOf(s.fwd[other]);
      assert t.fwd[other] == s.fwd[other] && t.owner[a] == m;
    } else {
      AddInverse(s, m, a);
    }
  }
}
