/** The candidate queue as a binary heap of nodes that are part of the vertices. */
module CandHeap {
  import opened Topology
  import opened BinHeap

  /** Key u is among the least ones of a queue. */
  predicate Least(m: map<Addr, nat>, ks: set<Addr>, u: Addr)
    requires ks <= m.Keys
  {
    u in ks && forall b :: b in ks ==> m[u] <= m[b]
  }

  ghost predicate Owned(nodeOf: map<Addr, HeapNode>) {
    forall a :: a in nodeOf ==> nodeOf[a].owner == a
  }

  /** The nodes that are not in the heap have no links. */
  ghost predicate Unlinked(all: set<HeapNode>, repr: set<HeapNode>)
    reads all
  {
    forall o :: o in all && o !in repr ==> LinksOf(o) == Links(null, null, null)
  }

  ghost function QueueOf(nodeOf: map<Addr, HeapNode>, repr: set<HeapNode>): map<Addr, nat>
    reads repr`key
  {
    map a | a in nodeOf && nodeOf[a] in repr :: nodeOf[a].key
  }

  lemma QueueAdds(nodeOf: map<Addr, HeapNode>, repr: set<HeapNode>, v: Addr)
    requires Owned(nodeOf) && v in nodeOf
    ensures QueueOf(nodeOf, repr + {nodeOf[v]}) == QueueOf(nodeOf, repr)[v := nodeOf[v].key]
  {
  }

  lemma QueueIs(nodeOf: map<Addr, HeapNode>, repr: set<HeapNode>, q: map<Addr, nat>)
    requires forall a :: a in q <==> a in nodeOf && nodeOf[a] in repr
    requires forall a :: a in q ==> q[a] == nodeOf[a].key
    ensures QueueOf(nodeOf, repr) == q
  {
  }

  lemma QueueRemoves(nodeOf: map<Addr, HeapNode>, repr: set<HeapNode>, node: HeapNode)
    requires Owned(nodeOf) && node in nodeOf.Values
    ensures QueueOf(nodeOf, repr - {node}) == QueueOf(nodeOf, repr) - {node.owner}
  {
  }

  lemma QueueLeast(nodeOf: map<Addr, HeapNode>, repr: set<HeapNode>, min: HeapNode)
    requires Owned(nodeOf) && repr <= nodeOf.Values && IsMin(min, repr)
    ensures Least(QueueOf(nodeOf, repr), QueueOf(nodeOf, repr).Keys, min.owner)
  {
  }

  lemma QueueEmpty(nodeOf: map<Addr, HeapNode>, repr: set<HeapNode>)
    requires Owned(nodeOf) && repr <= nodeOf.Values
    ensures repr == {} <==> QueueOf(nodeOf, repr) == map[]
  {
    if node :| node in repr {
      var a :| a in nodeOf && nodeOf[a] == node;
      assert a in QueueOf(nodeOf, repr);
    }
  }

  class HeapQueue {
    /** The heap node of each vertex. */
    const nodeOf: map<Addr, HeapNode>
    const heap: Heap

    /** The nodes of all vertices, queued or not. */
    ghost function Nodes(): set<HeapNode> {
      nodeOf.Values
    }

    ghost predicate Valid()
      reads heap, Nodes()
    {
      Owned(nodeOf) && heap.repr <= nodeOf.Values && heap.Valid() && Unlinked(nodeOf.Values, heap.repr)
    }

    /** The vertices in the queue with their keys. */
    ghost function Contents(): map<Addr, nat>
      reads heap, Nodes()
      requires Valid()
    {
      QueueOf(nodeOf, heap.repr)
    }

    constructor (vertices: set<Addr>)
      ensures Valid() && nodeOf.Keys == vertices && Contents() == map[] && fresh(heap) && fresh(Nodes())
    {
      var left, m: map<Addr, HeapNode> := vertices, map[];
      while left != {}
        invariant left <= vertices && m.Keys == vertices - left && Owned(m)
        invariant forall a :: a in m ==> fresh(m[a]) && LinksOf(m[a]) == Links(null, null, null)
      {
        var v :| v in left;
        var node := new HeapNode(v);
        m := m[v := node];
        left := left - {v};
      }
      nodeOf := m;
      heap := new Heap();
    }

    /** olsr_spf_add_cand_set for a heap */
    method Add(v: Addr, cost: nat)
      requires Valid() && v in nodeOf && v !in Contents()
      modifies heap, Nodes()
      ensures Valid() && Contents() == old(Contents())[v := cost]
    {
      hide Heap.Valid, QueueOf, Owned;
      var node := nodeOf[v];
      assert node !in heap.repr by { NotQueued(v); }
      node.key := cost;
      node.parent, node.left, node.right := null, null, null;
      heap.Insert(node);
      QueueAdds(nodeOf, old(heap.repr), v);
    }

    /** olsr_spf_decrease_key for a heap, which leaves a vertex alone that it does not hold */
    method Decrease(v: Addr, cost: nat)
      requires Valid() && v in nodeOf && (v in Contents() ==> cost <= Contents()[v])
      modifies heap, Nodes()
      ensures Valid() && Contents() == if v in old(Contents()) then old(Contents())[v := cost] else old(Contents())
    {
      NotQueued(v);
      ghost var after := if v in Contents() then Contents()[v := cost] else Contents();
      assert forall a :: a in after && a != v ==> after[a] == nodeOf[a].key;
      SetCost(v, cost);
      hide HeapQueue.Valid;
      QueueIs(nodeOf, heap.repr, after);
    }

    method SetCost(v: Addr, cost: nat)
      requires Valid() && v in nodeOf && (nodeOf[v] in heap.repr ==> cost <= nodeOf[v].key)
      modifies heap, Nodes()
      ensures Valid() && heap.repr == old(heap.repr) && nodeOf[v].key == cost
      ensures forall a :: a in nodeOf && a != v ==> nodeOf[a].key == old(nodeOf[a].key)
    {
      hide Heap.Valid;
      heap.LowerKey(nodeOf[v], cost);
    }

    /** olsr_spf_extract_best for a heap */
    method Extract() returns (r: Option<Addr>)
      requires Valid()
      modifies heap, Nodes()
      ensures Valid() && (r == None <==> old(Contents()) == map[])
      ensures r.Some? ==>
        Least(old(Contents()), old(Contents()).Keys, r.value) && Contents() == old(Contents()) - {r.value}
      ensures r == None ==> Contents() == old(Contents())
    {
      QueueEmpty(nodeOf, heap.repr);
      ghost var repr := heap.repr;
      assert Owned(nodeOf) && repr <= nodeOf.Values;
      hide HeapQueue.Valid, Owned, QueueOf, IsMin, Least;
      var min := TakeMin();
      if min == null {
        return None;
      }
      MinIsOwned(min, repr);
      QueueLeast(nodeOf, repr, min);
      QueueRemoves(nodeOf, repr, min);
      r := Some(min.owner);
    }

    method TakeMin() returns (min: HeapNode?)
      requires Valid()
      modifies heap, Nodes()
      ensures Valid() && (min == null <==> old(heap.repr) == {})
      ensures heap.repr == if min == null then old(heap.repr) else old(heap.repr) - {min}
      ensures min != null ==> IsMin(min, old(heap.repr))
      ensures QueueOf(nodeOf, old(heap.repr)) == old(Contents())
    {
      hide Heap.Valid, IsMin, Owned;
      min := heap.ExtractMin();
    }

    lemma MinIsOwned(min: HeapNode, repr: set<HeapNode>)
      requires IsMin(min, repr) && repr <= nodeOf.Values
      ensures min in nodeOf.Values
    {
    }

    lemma NotQueued(v: Addr)
      requires Valid() && v in nodeOf
      ensures v in Contents() <==> nodeOf[v] in heap.repr
    {
    }
  }
}
