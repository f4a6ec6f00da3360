/** The pointer based binary heap of the candidate queue. */
module BinHeap {
  import opened Topology
  import opened HeapShape

  /** A heap node is part of a vertex, its owner. */
  class HeapNode {
    const owner: Addr
    var key: nat
    var parent: HeapNode?
    var left: HeapNode?
    var right: HeapNode?

    constructor (owner: Addr)
      ensures this.owner == owner && parent == null && left == null && right == null
    {
      this.owner := owner;
      key, parent, left, right := 0, null, null, null;
    }
  }

  /** The node at a place, or null beyond the end. */
  ghost function At(nodes: seq<HeapNode>, i: int): HeapNode? {
    if 0 <= i < |nodes| then nodes[i] else null
  }

  ghost function ParentAt(nodes: seq<HeapNode>, i: nat): HeapNode? {
    if i == 0 then null else At(nodes, Up(i))
  }

  /** The pointers of the node at place i are the ones of a complete tree. */
  ghost predicate Linked(nodes: seq<HeapNode>, i: nat)
    requires i < |nodes|
    reads nodes[i]
  {
    && nodes[i].parent == ParentAt(nodes, i)
    && nodes[i].left == At(nodes, 2 * i + 1)
    && nodes[i].right == At(nodes, 2 * i + 2)
  }

  ghost predicate Distinct(nodes: seq<HeapNode>) {
    forall i, j :: 0 <= i < j < |nodes| ==> nodes[i] != nodes[j]
  }

  ghost predicate Shape(nodes: seq<HeapNode>)
    reads nodes
  {
    Distinct(nodes) && forall i :: 0 <= i < |nodes| ==> Linked(nodes, i)
  }

  // ----- Walks

  /** Going left from place a ends above the free place n at the end. */
  method DescendLeft(ghost nodes: seq<HeapNode>, start: HeapNode, ghost a: nat) returns (r: HeapNode)
    requires Shape(nodes) && a < |nodes| && start == nodes[a] && LeftTo(a, |nodes|)
    ensures r == nodes[Up(|nodes|)]
  {
    r := start;
    ghost var k := a;
    while r.left != null
      invariant k < |nodes| && r == nodes[k] && LeftTo(k, |nodes|)
      decreases |nodes| - k
    {
      assert Linked(nodes, k);
      r := r.left;
      k := 2 * k + 1;
    }
    assert Linked(nodes, k);
  }

  /** Going right from place a ends at the last place. */
  method DescendRight(ghost nodes: seq<HeapNode>, start: HeapNode, ghost a: nat) returns (r: HeapNode)
    requires Shape(nodes) && a < |nodes| && start == nodes[a] && RightTo(a, |nodes| - 1)
    ensures r == nodes[|nodes| - 1]
  {
    r := start;
    ghost var k := a;
    while r.right != null
      invariant k < |nodes| && r == nodes[k] && RightTo(k, |nodes| - 1)
      decreases |nodes| - k
    {
      assert Linked(nodes, k);
      r := r.right;
      k := 2 * k + 2;
    }
    assert Linked(nodes, k);
  }

  /** From the last node, over the next node of its level, to the node above the free place. */
  method NextParent(ghost nodes: seq<HeapNode>, last: HeapNode) returns (r: HeapNode)
    requires Shape(nodes) && nodes != [] && last == nodes[|nodes| - 1] && !IsPow2(|nodes| + 1)
    ensures r == nodes[Up(|nodes|)]
  {
    var aux := last;
    ghost var k := |nodes| - 1;
    SpineAbove(k, |nodes|);
    ParentOf(nodes, k);
    hide Shape, LeftTo, Up;
    while aux.parent.right == aux
      invariant 1 <= k < |nodes| && aux == nodes[k] && LeftTo(k + 1, |nodes|) && Up(k) < k && aux.parent == nodes[Up(k)]
      decreases k
    {
      ClimbRight(nodes, k);
      aux := aux.parent;
      k := Up(k);
      ParentOf(nodes, k);
    }
    RightOf(nodes, k);
    if aux.parent.right == null {
      return aux.parent;
    }
    r := DescendLeft(nodes, aux.parent.right, k + 1);
  }

  /** The ancestors on the way up from a right child stay one place before the way to the end. */
  lemma ClimbRight(nodes: seq<HeapNode>, k: nat)
    requires Shape(nodes) && 1 <= k < |nodes| && nodes[Up(k)].right == nodes[k] && !IsPow2(|nodes| + 1)
    requires LeftTo(k + 1, |nodes|)
    ensures Up(k) >= 1 && LeftTo(Up(k) + 1, |nodes|)
  {
    assert Linked(nodes, Up(k));
    assert k == 2 * Up(k) + 2;
    SpineAbove(Up(k), |nodes|);
  }

  /** Right of a left child there is a node, or the end is there. */
  lemma RightOf(nodes: seq<HeapNode>, k: nat)
    requires Shape(nodes) && 1 <= k < |nodes| && nodes[Up(k)].right != nodes[k] && LeftTo(k + 1, |nodes|)
    ensures nodes[Up(k)].right == At(nodes, k + 1)
    ensures k + 1 == |nodes| ==> Up(|nodes|) == Up(k)
  {
    assert Linked(nodes, Up(k));
    assert k == 2 * Up(k) + 1;
  }

  /** Only above the left spine is there no next node in the level. */
  lemma SpineAbove(k: nat, n: nat)
    requires LeftTo(k + 1, n) && !IsPow2(n + 1)
    ensures 1 <= k
  {
    OffSpine(k + 1, n);
  }

  /** From the node above the place that was freed, over the previous node of its level, to
      the node that is last now. */
  method PreviousLast(ghost nodes: seq<HeapNode>, above: HeapNode) returns (r: HeapNode)
    requires Shape(nodes) && nodes != [] && |nodes| % 2 == 1 && !IsPow2(|nodes| + 1)
    requires above == nodes[Up(|nodes|)]
    ensures r == nodes[|nodes| - 1]
  {
    var aux := above;
    ghost var k := Up(|nodes|);
    StartLeft(|nodes|);
    ParentOf(nodes, k);
    hide Shape, LeftTo, RightTo, Up;
    while aux.parent.left == aux
      invariant 2 <= k < |nodes| && aux == nodes[k] && LeftTo(k, |nodes|) && RightTo(k - 1, |nodes| - 1)
      invariant Up(k) < k && aux.parent == nodes[Up(k)]
      decreases k
    {
      ClimbLeft(nodes, k);
      aux := aux.parent;
      k := Up(k);
      ParentOf(nodes, k);
    }
    LeftOf(nodes, k);
    r := DescendRight(nodes, aux.parent.left, k - 1);
  }

  lemma ParentOf(nodes: seq<HeapNode>, k: nat)
    requires Shape(nodes) && 1 <= k < |nodes|
    ensures Up(k) < k && nodes[k].parent == nodes[Up(k)]
  {
    assert Linked(nodes, k);
  }

  /** The ancestors on the way up from a left child keep leading to the last two places. */
  lemma ClimbLeft(nodes: seq<HeapNode>, k: nat)
    requires Shape(nodes) && 2 <= k < |nodes| && nodes[Up(k)].left == nodes[k] && !IsPow2(|nodes| + 1)
    requires LeftTo(k, |nodes|) && RightTo(k - 1, |nodes| - 1)
    ensures Up(k) >= 2 && LeftTo(Up(k), |nodes|) && RightTo(Up(k) - 1, |nodes| - 1)
  {
    assert Linked(nodes, Up(k));
    assert k == 2 * Up(k) + 1;
    OffSpine(Up(k), |nodes|);
  }

  lemma LeftOf(nodes: seq<HeapNode>, k: nat)
    requires Shape(nodes) && 2 <= k < |nodes| && nodes[Up(k)].left != nodes[k]
    ensures nodes[Up(k)].left == nodes[k - 1]
  {
    assert Linked(nodes, Up(k));
    assert k == 2 * Up(k) + 2;
  }

  lemma StartLeft(n: nat)
    requires n % 2 == 1 && !IsPow2(n + 1)
    ensures 2 <= Up(n) < n && LeftTo(Up(n), n) && RightTo(Up(n) - 1, n - 1)
  {
    assert n == 2 * Up(n) + 1;
    OffSpine(Up(n), n);
  }

  // ----- Swaps

  ghost function Swapped(nodes: seq<HeapNode>, p: nat, i: nat): seq<HeapNode>
    requires p < |nodes| && i < |nodes|
  {
    nodes[p := nodes[i]][i := nodes[p]]
  }

  lemma SwappedDistinct(nodes: seq<HeapNode>, p: nat, i: nat)
    requires p < |nodes| && i < |nodes| && Distinct(nodes)
    ensures Distinct(Swapped(nodes, p, i))
  {
  }

  /** Node y is a child of x, and the nodes around the two are different. */
  ghost predicate Ready(repr: set<HeapNode>, x: HeapNode, y: HeapNode)
    reads repr, x, y
  {
    && x in repr && y in repr && y.parent == x && x != y && (x.left == y || x.right == y)
    && Apart(repr, x, y, x.parent) && Apart(repr, x, y, y.left) && Apart(repr, x, y, y.right)
    && (x.left == y || Apart(repr, x, y, x.left)) && (x.right == y || Apart(repr, x, y, x.right))
    && (x.parent != null ==> x.parent != x.left && x.parent != x.right && x.parent != y.left && x.parent != y.right)
    && (y.left != null ==> y.left != y.right && y.left != x.left && y.left != x.right)
    && (y.right != null ==> y.right != x.left && y.right != x.right)
    && (x.left != x.right)
  }

  ghost predicate Apart(repr: set<HeapNode>, x: HeapNode, y: HeapNode, o: HeapNode?) {
    o != null ==> o in repr && o != x && o != y
  }

  datatype Links = Links(parent: HeapNode?, left: HeapNode?, right: HeapNode?)

  ghost function LinksOf(o: HeapNode): Links
    reads o
  {
    Links(o.parent, o.left, o.right)
  }

  ghost function Snapshot(repr: set<HeapNode>): map<HeapNode, Links>
    reads repr
  {
    map o | o in repr :: LinksOf(o)
  }

  /** Node y has taken the place of its parent x. */
  ghost predicate Exchanged(repr: set<HeapNode>, was: map<HeapNode, Links>, x: HeapNode, y: HeapNode)
    requires x in was && y in was && forall o :: o in repr ==> o in was
    reads repr
  {
    forall o :: o in repr ==> LinksOf(o) == Exchange(was, x, y, o)
  }

  ghost function Exchange(was: map<HeapNode, Links>, x: HeapNode, y: HeapNode, o: HeapNode): Links
    requires x in was && y in was && o in was
  {
    if o == y then
      if was[x].left == y then Links(was[x].parent, x, was[x].right) else Links(was[x].parent, was[x].left, x)
    else if o == x then
      Links(y, was[y].left, was[y].right)
    else
      Links(
        if o == was[y].left || o == was[y].right then x
          else if o == was[x].left || o == was[x].right then y else was[o].parent,
        if o == was[x].parent && was[o].left == x then y else was[o].left,
        if o == was[x].parent && was[o].left != x then y else was[o].right)
  }

  /** Node x gets the parent y and the children l and r. */
  method GoDown(ghost repr: set<HeapNode>, x: HeapNode, y: HeapNode, l: HeapNode?, r: HeapNode?)
    requires x in repr && Apart(repr, x, y, l) && Apart(repr, x, y, r)
    modifies repr`parent, x`left, x`right
    ensures x.parent == y && x.left == l && x.right == r
    ensures forall o :: o in repr && o != x ==> o.parent == if o == l || o == r then x else old(o.parent)
  {
    x.parent := y;
    x.left := l;
    if l != null {
      l.parent := x;
    }
    x.right := r;
    if r != null {
      r.parent := x;
    }
  }

  /** Node y gets the parent g, where it replaces x, and the children l and r; one of these is
      x, the other one gets y as its parent. */
  method GoUp(ghost repr: set<HeapNode>, y: HeapNode, x: HeapNode, g: HeapNode?, l: HeapNode?, r: HeapNode?)
    requires y in repr && Apart(repr, x, y, g) && (l == x || Apart(repr, x, y, l)) && (r == x || Apart(repr, x, y, r))
    requires l == x <==> r != x
    modifies repr`parent, repr`left, repr`right
    ensures y.parent == g && y.left == l && y.right == r
    ensures forall o :: o in repr && o != y ==> o.parent == if o != x && (o == l || o == r) then y else old(o.parent)
    ensures forall o :: o in repr && o != y ==> o.left == if o == g && old(o.left) == x then y else old(o.left)
    ensures forall o :: o in repr && o != y ==> o.right == if o == g && old(o.left) != x then y else old(o.right)
  {
    y.left := l;
    y.right := r;
    if l != x {
      if l != null {
        l.parent := y;
      }
    } else if r != null {
      r.parent := y;
    }
    y.parent := g;
    if g != null {
      if g.left == x {
        g.left := y;
      } else {
        g.right := y;
      }
    }
  }

  /** The body of the loop of heap_decrease_key: a node takes the place of its parent. */
  method MoveUp(ghost repr: set<HeapNode>, node: HeapNode)
    requires node.parent != null && Ready(repr, node.parent, node)
    modifies repr`parent, repr`left, repr`right
    ensures Exchanged(repr, old(Snapshot(repr)), old(node.parent), node)
  {
    var parent, left, right := node.parent, node.left, node.right;
    if parent.left == node {
      GoUp(repr, node, parent, parent.parent, parent, parent.right);
    } else {
      GoUp(repr, node, parent, parent.parent, parent.left, parent);
    }
    GoDown(repr, parent, node, left, right);
  }

  /** heap_swap_left and heap_swap_right: a child takes the place of a node. */
  method MoveDown(ghost repr: set<HeapNode>, node: HeapNode, child: HeapNode)
    requires Ready(repr, node, child)
    modifies repr`parent, repr`left, repr`right
    ensures Exchanged(repr, old(Snapshot(repr)), node, child)
  {
    var parent, left, right := node.parent, node.left, node.right;
    GoDown(repr, node, child, child.left, child.right);
    if left == child {
      GoUp(repr, child, node, parent, node, right);
    } else {
      GoUp(repr, child, node, parent, left, node);
    }
  }

  /** The places hold the nodes of a set. */
  ghost predicate Covers(nodes: seq<HeapNode>, repr: set<HeapNode>) {
    forall i :: 0 <= i < |nodes| ==> nodes[i] in repr
  }

  lemma EdgeIsReady(nodes: seq<HeapNode>, repr: set<HeapNode>, i: nat)
    requires Shape(nodes) && Covers(nodes, repr) && 1 <= i < |nodes|
    ensures Ready(repr, nodes[Up(i)], nodes[i])
  {
    assert Linked(nodes, i) && Linked(nodes, Up(i));
  }

  /** Place j after the places p and i were exchanged. */
  function Place(p: nat, i: nat, j: nat): nat {
    if j == p then i else if j == i then p else j
  }

  /** What the node that was at place k points to after the one at place i has taken the
      place above it. */
  ghost function NewLinks(nodes: seq<HeapNode>, i: nat, k: nat): Links
    requires 1 <= i < |nodes| && k < |nodes|
  {
    var p := Up(i);
    var x, y := nodes[p], nodes[i];
    if k == i then
      if i == 2 * p + 1 then Links(ParentAt(nodes, p), x, At(nodes, 2 * p + 2))
        else Links(ParentAt(nodes, p), At(nodes, 2 * p + 1), x)
    else if k == p then
      Links(y, At(nodes, 2 * i + 1), At(nodes, 2 * i + 2))
    else
      Links(
        if k == 2 * i + 1 || k == 2 * i + 2 then x
          else if k == 2 * p + 1 || k == 2 * p + 2 then y else ParentAt(nodes, k),
        if 2 * k + 1 == p then y else At(nodes, 2 * k + 1),
        if 2 * k + 2 == p then y else At(nodes, 2 * k + 2))
  }

  lemma NewLinksSwap(nodes: seq<HeapNode>, i: nat, k: nat)
    requires 1 <= i < |nodes| && k < |nodes| && Distinct(nodes)
    ensures var p, j := Up(i), Place(Up(i), i, k);
      NewLinks(nodes, i, k) == Links(ParentAt(Swapped(nodes, p, i), j), At(Swapped(nodes, p, i), 2 * j + 1),
        At(Swapped(nodes, p, i), 2 * j + 2))
  {
  }

  /** The pointers of the node at place k. */
  ghost function TreeLinks(nodes: seq<HeapNode>, k: nat): Links {
    Links(ParentAt(nodes, k), At(nodes, 2 * k + 1), At(nodes, 2 * k + 2))
  }

  lemma ExchangeInTree(nodes: seq<HeapNode>, was: map<HeapNode, Links>, i: nat, k: nat)
    requires 1 <= i < |nodes| && k < |nodes| && Distinct(nodes)
    requires nodes[k] in was && nodes[Up(i)] in was && nodes[i] in was
    requires was[nodes[k]] == TreeLinks(nodes, k) && was[nodes[Up(i)]] == TreeLinks(nodes, Up(i)) &&
      was[nodes[i]] == TreeLinks(nodes, i)
    ensures Exchange(was, nodes[Up(i)], nodes[i], nodes[k]) == NewLinks(nodes, i, k)
  {
  }

  lemma ExchangedInTree(nodes: seq<HeapNode>, repr: set<HeapNode>, was: map<HeapNode, Links>, i: nat)
    requires 1 <= i < |nodes| && Distinct(nodes) && Covers(nodes, repr) && repr <= was.Keys
    requires forall k :: 0 <= k < |nodes| ==> nodes[k] in was && was[nodes[k]] == TreeLinks(nodes, k)
    requires Exchanged(repr, was, nodes[Up(i)], nodes[i])
    ensures NewlyLinked(nodes, i)
  {
    hide Distinct, TreeLinks, Exchange, NewLinks;
    forall k | 0 <= k < |nodes|
      ensures LinksOf(nodes[k]) == NewLinks(nodes, i, k)
    {
      ExchangeInTree(nodes, was, i, k);
    }
  }

  lemma ShapeSnapshot(nodes: seq<HeapNode>, repr: set<HeapNode>)
    requires Shape(nodes) && Covers(nodes, repr)
    ensures forall k :: 0 <= k < |nodes| ==>
      nodes[k] in Snapshot(repr) && Snapshot(repr)[nodes[k]] == TreeLinks(nodes, k)
  {
    forall k | 0 <= k < |nodes|
      ensures nodes[k] in Snapshot(repr) && Snapshot(repr)[nodes[k]] == TreeLinks(nodes, k)
    {
      assert Linked(nodes, k);
    }
  }

  ghost predicate NewlyLinked(nodes: seq<HeapNode>, i: nat)
    reads nodes
  {
    1 <= i < |nodes| && forall k :: 0 <= k < |nodes| ==> LinksOf(nodes[k]) == NewLinks(nodes, i, k)
  }

  lemma SwapLinked(nodes: seq<HeapNode>, i: nat, j: nat)
    requires 1 <= i < |nodes| && Distinct(nodes) && j < |nodes|
    requires var k := Place(Up(i), i, j); LinksOf(nodes[k]) == NewLinks(nodes, i, k)
    ensures Linked(Swapped(nodes, Up(i), i), j)
  {
    var k := Place(Up(i), i, j);
    NewLinksSwap(nodes, i, k);
    hide NewLinks, At, Distinct, ParentAt;
    assert Swapped(nodes, Up(i), i)[j] == nodes[k];
  }

  lemma SwapShape(nodes: seq<HeapNode>, i: nat)
    requires Distinct(nodes) && NewlyLinked(nodes, i)
    ensures Shape(Swapped(nodes, Up(i), i))
  {
    SwappedDistinct(nodes, Up(i), i);
    hide Linked, NewLinks, LinksOf, Distinct;
    forall j: nat | j < |nodes|
      ensures Linked(Swapped(nodes, Up(i), i), j)
    {
      SwapLinked(nodes, i, j);
    }
  }

  /** A node goes up one place in the tree. */
  method Raise(ghost nodes: seq<HeapNode>, ghost repr: set<HeapNode>, node: HeapNode, ghost i: nat)
    requires Shape(nodes) && Covers(nodes, repr) && 1 <= i < |nodes| && node == nodes[i]
    modifies repr`parent, repr`left, repr`right
    ensures Shape(Swapped(nodes, Up(i), i))
  {
    EdgeIsReady(nodes, repr, i);
    ParentOf(nodes, i);
    ShapeSnapshot(nodes, repr);
    hide Ready, Exchanged, NewlyLinked, Linked;
    MoveUp(repr, node);
    ExchangedInTree(nodes, repr, old(Snapshot(repr)), i);
    SwapShape(nodes, i);
  }

  /** A node goes down one place in the tree. */
  method Lower(ghost nodes: seq<HeapNode>, ghost repr: set<HeapNode>, node: HeapNode, child: HeapNode, ghost i: nat)
    requires Shape(nodes) && Covers(nodes, repr) && 1 <= i < |nodes| && child == nodes[i] && node == nodes[Up(i)]
    modifies repr`parent, repr`left, repr`right
    ensures Shape(Swapped(nodes, Up(i), i))
  {
    EdgeIsReady(nodes, repr, i);
    ShapeSnapshot(nodes, repr);
    hide Ready, Exchanged, NewlyLinked, Linked;
    MoveDown(repr, node, child);
    ExchangedInTree(nodes, repr, old(Snapshot(repr)), i);
    SwapShape(nodes, i);
  }

  // ----- The heap

  ghost function Keys(nodes: seq<HeapNode>): (ks: seq<nat>)
    reads nodes`key
    ensures |ks| == |nodes| && forall i :: 0 <= i < |ks| ==> ks[i] == nodes[i].key
  {
    if nodes == [] then [] else Keys(nodes[..|nodes| - 1]) + [nodes[|nodes| - 1].key]
  }

  /** The places hold exactly the nodes of a set. */
  ghost predicate Holds(nodes: seq<HeapNode>, repr: set<HeapNode>) {
    Covers(nodes, repr) && forall o :: o in repr ==> o in nodes
  }

  lemma SwappedHolds(nodes: seq<HeapNode>, repr: set<HeapNode>, p: nat, i: nat)
    requires p < |nodes| && i < |nodes| && Holds(nodes, repr)
    ensures Holds(Swapped(nodes, p, i), repr)
  {
    var swapped := Swapped(nodes, p, i);
    forall o | o in repr
      ensures o in swapped
    {
      var j :| 0 <= j < |nodes| && nodes[j] == o;
      assert swapped[Place(p, i, j)] == o;
    }
  }

  lemma SwappedKeys(nodes: seq<HeapNode>, p: nat, i: nat)
    requires p < |nodes| && i < |nodes|
    ensures Keys(Swapped(nodes, p, i)) == SwapKeys(Keys(nodes), p, i)
  {
    hide Keys;
    var ks, after := Keys(nodes), Keys(Swapped(nodes, p, i));
    assert forall j :: 0 <= j < |ks| ==> after[j] == SwapKeys(ks, p, i)[j];
  }

  /** The keys do not decrease on the way down. */
  ghost predicate Sorted(nodes: seq<HeapNode>)
    reads nodes`key
  {
    HeapOrder(Keys(nodes))
  }

  ghost predicate Risen(nodes: seq<HeapNode>, k: nat)
    reads nodes`key
  {
    RisenAt(Keys(nodes), k)
  }

  ghost predicate Sunk(nodes: seq<HeapNode>, k: nat)
    reads nodes`key
  {
    SunkAt(Keys(nodes), k)
  }

  lemma RiseNode(nodes: seq<HeapNode>, k: nat)
    requires Risen(nodes, k) && 0 < k < |nodes| && nodes[Up(k)].key > nodes[k].key
    ensures Risen(Swapped(nodes, Up(k), k), Up(k))
  {
    hide Keys, RisenAt, SwapKeys;
    RiseStep(Keys(nodes), k);
    SwappedKeys(nodes, Up(k), k);
  }

  lemma RiseNodeEnd(nodes: seq<HeapNode>, k: nat)
    requires Risen(nodes, k) && k < |nodes| && (k > 0 ==> nodes[Up(k)].key <= nodes[k].key)
    ensures Sorted(nodes)
  {
    hide Keys;
    RiseEnd(Keys(nodes), k);
  }

  lemma SinkNodeEnd(nodes: seq<HeapNode>, k: nat)
    requires Sunk(nodes, k) && k < |nodes|
    requires (2 * k + 1 < |nodes| ==> nodes[k].key <= nodes[2 * k + 1].key) &&
      (2 * k + 2 < |nodes| ==> nodes[k].key <= nodes[2 * k + 2].key)
    ensures Sorted(nodes)
  {
    hide Keys, SunkAt, HeapOrder;
    SinkDone(Keys(nodes), k);
  }

  lemma SwappedTop(nodes: seq<HeapNode>, k: nat)
    requires 0 < k < |nodes|
    ensures var after := Swapped(nodes, Up(k), k);
      |after| == |nodes| && after[Up(k)] == nodes[k] && At(after, 0) == (if Up(k) == 0 then nodes[k] else At(nodes, 0))
  {
  }

  lemma ParentIs(nodes: seq<HeapNode>, k: nat)
    requires Shape(nodes) && k < |nodes|
    ensures nodes[k].parent == ParentAt(nodes, k) && (ParentAt(nodes, k) == null <==> k == 0)
  {
    assert Linked(nodes, k);
  }

  /** The node that is last when the node at place k has gone up as far as it can. */
  ghost function LastAfter(nodes: seq<HeapNode>, k: nat): HeapNode?
    reads nodes`key
    requires k < |nodes|
  {
    if 0 < k == |nodes| - 1 && nodes[Up(k)].key > nodes[k].key then nodes[Up(k)] else At(nodes, |nodes| - 1)
  }

  /** A node is the last node just when it is at the last place. */
  lemma LastIs(nodes: seq<HeapNode>, k: nat)
    requires Shape(nodes) && k < |nodes|
    ensures nodes[k] == At(nodes, |nodes| - 1) <==> k == |nodes| - 1
  {
  }

  lemma LastAfterIs(nodes: seq<HeapNode>, k: nat)
    requires Shape(nodes) && k < |nodes|
    ensures var parent, last := ParentAt(nodes, k), At(nodes, |nodes| - 1);
      LastAfter(nodes, k) == if parent != null && parent.key > nodes[k].key && last == nodes[k] then parent else last
  {
    LastIs(nodes, k);
  }

  lemma SwappedLast(nodes: seq<HeapNode>, c: nat)
    requires 0 < c < |nodes|
    ensures At(Swapped(nodes, Up(c), c), |nodes| - 1) == if c == |nodes| - 1 then nodes[Up(c)]
      else At(nodes, |nodes| - 1)
  {
  }

  lemma LastStays(nodes: seq<HeapNode>, k: nat)
    requires k < |nodes|
    ensures if 0 < k && nodes[Up(k)].key > nodes[k].key
      then LastAfter(Swapped(nodes, Up(k), k), Up(k)) == LastAfter(nodes, k)
            else LastAfter(nodes, k) == At(nodes, |nodes| - 1)
  {
  }

  lemma ChildrenAre(nodes: seq<HeapNode>, k: nat)
    requires Shape(nodes) && k < |nodes|
    ensures nodes[k].left == At(nodes, 2 * k + 1) && nodes[k].right == At(nodes, 2 * k + 2)
    ensures nodes[k].left == nodes[k].right ==> nodes[k].left == null
  {
    assert Linked(nodes, k);
  }

  ghost predicate IsLeastChild(nodes: seq<HeapNode>, k: nat, c: nat)
    reads nodes`key
  {
    && (c == 2 * k + 1 || c == 2 * k + 2) && c < |nodes|
    && nodes[c].key <= nodes[2 * k + 1].key && (2 * k + 2 < |nodes| ==> nodes[c].key <= nodes[2 * k + 2].key)
  }

  lemma SinkNode(nodes: seq<HeapNode>, k: nat, c: nat)
    requires k < |nodes| && Sunk(nodes, k) && IsLeastChild(nodes, k, c) && nodes[c].key < nodes[k].key
    ensures 0 < c < |nodes| && Up(c) == k && Sunk(Swapped(nodes, k, c), c)
    ensures |Swapped(nodes, k, c)| == |nodes| && Swapped(nodes, k, c)[c] == nodes[k]
  {
    hide Keys, SunkAt, SwapKeys;
    SinkLeast(Keys(nodes), k, c);
    SwappedKeys(nodes, k, c);
  }

  /** The child that a node of heap_increse_key is swapped with, if there is one. */
  method ChooseChild(ghost nodes: seq<HeapNode>, node: HeapNode, ghost k: nat) returns (child: HeapNode?)
    requires Shape(nodes) && k < |nodes| && node == nodes[k] && Sunk(nodes, k)
    ensures child == null ==> Sorted(nodes)
    ensures child != null ==> child.key < node.key && (child == node.left || child == node.right)
    ensures child != null ==> var c := if child == node.left then 2 * k + 1 else 2 * k + 2;
      IsLeastChild(nodes, k, c) && child == nodes[c]
  {
    ChildrenAre(nodes, k);
    hide Sunk, Shape, Sorted;
    var left, right := node.left, node.right;
    if left != null && node.key > left.key {
      if right != null && node.key > right.key {
        return if left.key < right.key then left else right;
      }
      return left;
    }
    if right != null && node.key > right.key {
      return right;
    }
    SinkNodeEnd(nodes, k);
    return null;
  }

  // ----- Insertion and extraction

  /** A new node is linked below the node above the free place. */
  method Append(ghost nodes: seq<HeapNode>, ghost repr: set<HeapNode>, node: HeapNode, parent: HeapNode)
    requires Shape(nodes) && Covers(nodes, repr) && nodes != [] && node !in repr
    requires LinksOf(node) == Links(null, null, null) && parent == nodes[Up(|nodes|)]
    modifies parent`left, parent`right, node`parent
    ensures Shape(nodes + [node])
  {
    ghost var p := Up(|nodes|);
    assert Linked(nodes, p);
    if parent.left != null {
      parent.right := node;
    } else {
      parent.left := node;
    }
    node.parent := parent;
    forall k: nat | k < |nodes| + 1
      ensures Linked(nodes + [node], k)
    {
      assert k < |nodes| ==> old(Linked(nodes, k));
    }
  }

  /** The last node is taken out of the tree. */
  method DropLast(ghost nodes: seq<HeapNode>, node: HeapNode, parent: HeapNode) returns (left: bool)
    requires Shape(nodes) && |nodes| > 1 && node == nodes[|nodes| - 1] && parent == nodes[Up(|nodes| - 1)]
    modifies parent`left, parent`right
    ensures Shape(nodes[..|nodes| - 1])
    ensures left <==> |nodes| % 2 == 0
    ensures !left ==> parent.left == nodes[|nodes| - 2]
  {
    ghost var n := |nodes| - 1;
    assert Linked(nodes, n) && Linked(nodes, Up(n));
    left := parent.left == node;
    if left {
      parent.left := null;
    } else {
      parent.right := null;
    }
    forall k: nat | k < n
      ensures Linked(nodes[..n], k)
    {
      assert old(Linked(nodes, k));
    }
  }

  /** A node takes the place of the root. */
  method ReplaceRoot(ghost nodes: seq<HeapNode>, ghost repr: set<HeapNode>, min: HeapNode, node: HeapNode)
    requires Shape(nodes) && Covers(nodes, repr) && nodes != [] && min == nodes[0] && node in repr && node !in nodes
    modifies repr`parent, repr`left, repr`right
    ensures Shape(nodes[0 := node])
  {
    assert Linked(nodes, 0);
    node.left := min.left;
    if node.left != null {
      node.left.parent := node;
    }
    node.right := min.right;
    if node.right != null {
      node.right.parent := node;
    }
    node.parent := null;
    ghost var after := nodes[0 := node];
    forall k: nat | k < |nodes|
      ensures Linked(after, k)
    {
      assert old(Linked(nodes, k));
    }
  }

  lemma AppendHolds(nodes: seq<HeapNode>, repr: set<HeapNode>, node: HeapNode)
    requires Holds(nodes, repr)
    ensures Covers(nodes, repr) && Holds(nodes + [node], repr + {node})
  {
  }

  lemma AppendEnds(nodes: seq<HeapNode>, node: HeapNode)
    requires nodes != []
    ensures At(nodes + [node], 0) == At(nodes, 0) && At(nodes + [node], |nodes|) == node &&
      |nodes + [node]| == |nodes| + 1
  {
  }

  lemma ParentHeld(nodes: seq<HeapNode>, repr: set<HeapNode>)
    requires Holds(nodes, repr) && nodes != []
    ensures nodes[Up(|nodes|)] in repr
  {
  }

  lemma AppendNode(nodes: seq<HeapNode>, node: HeapNode)
    requires Sorted(nodes)
    ensures Risen(nodes + [node], |nodes|)
  {
    AppendRisen(Keys(nodes), node.key);
    hide Keys;
    assert Keys(nodes + [node]) == Keys(nodes) + [node.key];
  }

  lemma ReplaceNode(nodes: seq<HeapNode>, node: HeapNode)
    requires Sorted(nodes) && |nodes| > 1
    ensures Sunk(nodes[..|nodes| - 1][0 := node], 0)
  {
    ReplaceSunk(Keys(nodes), node.key);
    hide Keys;
    assert Keys(nodes[..|nodes| - 1][0 := node]) == Keys(nodes)[..|nodes| - 1][0 := node.key];
  }

  lemma RootIsMin(nodes: seq<HeapNode>, o: HeapNode)
    requires Sorted(nodes) && o in nodes
    ensures nodes[0].key <= o.key
  {
    var i :| 0 <= i < |nodes| && nodes[i] == o;
    RootIsLeast(Keys(nodes), i);
  }

  /** heap_find_parent_insert_node */
  method FindParentInsertNode(ghost nodes: seq<HeapNode>, root: HeapNode, last: HeapNode, count: nat)
      returns (r: HeapNode)
    requires Shape(nodes) && nodes != [] && root == nodes[0] && last == nodes[|nodes| - 1] && count == |nodes|
    ensures r == nodes[Up(|nodes|)]
  {
    hide Shape, LeftTo, IsPow2;
    var n := PerfectLog2(count + 1);
    if n == 0 {
      NewLevel(count);
      r := DescendLeft(nodes, root, 0);
    } else if (count + 1) % 2 == 0 {
      r := NextParent(nodes, last);
    } else {
      ParentOf(nodes, count - 1);
      r := last.parent;
    }
  }

  /** heap_find_last_node, when the last node was a left child of the node `above` */
  method FindLastNode(ghost nodes: seq<HeapNode>, root: HeapNode, above: HeapNode, count: nat) returns (r: HeapNode)
    requires Shape(nodes) && |nodes| > 1 && |nodes| % 2 == 1 && root == nodes[0] && count == |nodes|
    requires above == nodes[Up(|nodes|)]
    ensures r == nodes[|nodes| - 1]
  {
    hide Shape, LeftTo, RightTo, IsPow2;
    var n := PerfectLog2(count + 1);
    if n == 0 {
      NewLevel(count);
      r := DescendRight(nodes, root, 0);
    } else {
      r := PreviousLast(nodes, above);
    }
  }

  lemma TakeHolds(nodes: seq<HeapNode>, repr: set<HeapNode>)
    requires Holds(nodes, repr) && |nodes| > 1 && Distinct(nodes)
    ensures var rest, node := nodes[..|nodes| - 1], nodes[|nodes| - 1];
      Covers(rest, repr) && node in repr && node !in rest && Holds(rest[0 := node], repr - {nodes[0]})
  {
    var after := nodes[..|nodes| - 1][0 := nodes[|nodes| - 1]];
    forall o | o in repr && o != nodes[0]
      ensures o in after
    {
      var i :| 0 <= i < |nodes| && nodes[i] == o;
      assert after[if i == |nodes| - 1 then 0 else i] == o;
    }
  }

  lemma TakeEnds(nodes: seq<HeapNode>, node: HeapNode)
    requires |nodes| > 2
    ensures var after := nodes[..|nodes| - 1][0 := node];
      |after| == |nodes| - 1 && At(after, 0) == node && At(after, |after| - 1) == nodes[|nodes| - 2]
  {
  }

  /** Node o has the least key of a set of nodes. */
  ghost predicate IsMin(min: HeapNode, repr: set<HeapNode>)
    reads min, repr`key
  {
    min in repr && forall o :: o in repr ==> min.key <= o.key
  }

  lemma SmallShape(nodes: seq<HeapNode>, repr: set<HeapNode>)
    requires Shape(nodes) && Holds(nodes, repr)
    ensures |nodes| == 1 ==> repr == {nodes[0]}
    ensures |nodes| == 2 ==> nodes[1].left == null && nodes[1].right == null && repr - {nodes[0]} == {nodes[1]}
  {
    if |nodes| == 2 {
      assert Linked(nodes, 1);
    }
  }

  class Heap {
    var count: nat
    var root: HeapNode?
    var last: HeapNode?
    /** The nodes, and the nodes in level order. */
    ghost var repr: set<HeapNode>
    ghost var nodes: seq<HeapNode>

    /** A complete tree of the nodes. */
    ghost predicate Rooted()
      reads this, repr
    {
      Holds(nodes, repr) && Shape(nodes) && count == |nodes| && root == At(nodes, 0)
    }

    ghost predicate Whole()
      reads this, repr
    {
      Rooted() && last == At(nodes, |nodes| - 1)
    }

    ghost predicate Valid()
      reads this, repr
    {
      Whole() && Sorted(nodes)
    }

    /** heap_init */
    constructor ()
      ensures Valid() && repr == {}
    {
      count, root, last, nodes, repr := 0, null, null, [], {};
    }

    /** One pass of the loop of heap_decrease_key. */
    method RaiseStep(node: HeapNode, ghost k: nat)
      requires Rooted() && 0 < k < |nodes| && node == nodes[k]
      modifies this`root, this`nodes, repr`parent, repr`left, repr`right
      ensures Rooted() && nodes == Swapped(old(nodes), Up(k), k) && node.parent == ParentAt(nodes, Up(k))
    {
      SwappedHolds(nodes, repr, Up(k), k);
      SwappedTop(nodes, k);
      hide Shape, Swapped, Holds, At;
      Raise(nodes, repr, node, k);
      nodes := Swapped(nodes, Up(k), k);
      ParentIs(nodes, Up(k));
      if node.parent == null {
        root := node;
      }
    }

    /** The loop of heap_decrease_key. */
    method RaiseAll(node: HeapNode, ghost i: nat)
      requires Rooted() && i < |nodes| && node == nodes[i] && Risen(nodes, i)
      modifies this`root, this`nodes, repr`parent, repr`left, repr`right
      ensures Rooted() && Sorted(nodes) && At(nodes, |nodes| - 1) == old(LastAfter(nodes, i))
    {
      hide Risen, Sorted, Shape, LastAfter, Swapped, Holds;
      ParentIs(nodes, i);
      var parent := node.parent;
      ghost var k: nat := i;
      while parent != null && parent.key > node.key
        invariant Rooted() && k < |nodes| && node == nodes[k] && Risen(nodes, k)
        invariant parent == ParentAt(nodes, k) && LastAfter(nodes, k) == old(LastAfter(nodes, i))
        decreases k
      {
        RiseNode(nodes, k);
        LastStays(nodes, k);
        SwappedTop(nodes, k);
        ghost var after := Swapped(nodes, Up(k), k);
        assert Risen(after, Up(k)) && |after| == |nodes|;
        RaiseStep(node, k);
        assert nodes == after;
        assert Risen(after, Up(k));
        k := Up(k);
        parent := node.parent;
      }
      RiseNodeEnd(nodes, k);
      LastStays(nodes, k);
    }

    /** heap_decrease_key, for a node whose key has become less; it leaves a node alone that
        has no parent */
    method DecreaseKey(node: HeapNode, ghost i: nat)
      requires Whole() && (node.parent == null ==> Sorted(nodes))
      requires node.parent != null ==> i < |nodes| && node == nodes[i] && Risen(nodes, i)
      modifies this`root, this`last, this`nodes, repr`parent, repr`left, repr`right
      ensures Valid()
    {
      var parent := node.parent;
      if parent == null {
        return;
      }
      ParentIs(nodes, i);
      LastAfterIs(nodes, i);
      hide Risen, Sorted, Shape, At, Holds, LastAfter;
      if parent.key > node.key {
        if last == node {
          last := parent;
        }
      }
      RaiseAll(node, i);
    }

    /** A new key for a node, followed by heap_decrease_key */
    method LowerKey(node: HeapNode, newKey: nat)
      requires Valid() && (node in repr ==> newKey <= node.key) && (node !in repr ==> node.parent == null)
      modifies this`root, this`last, this`nodes, repr`parent, repr`left, repr`right, node`key
      ensures Valid() && node.key == newKey
    {
      ghost var i: nat := 0;
      if node in repr {
        i :| 0 <= i < |nodes| && nodes[i] == node;
        LessRisen(Keys(nodes), i, newKey);
      }
      SetKey(node, newKey, i);
      if node in repr {
        ParentIs(nodes, i);
        if i == 0 {
          RiseNodeEnd(nodes, i);
        }
      }
      hide Shape, Risen, Sorted, Holds;
      DecreaseKey(node, i);
    }

    method SetKey(node: HeapNode, newKey: nat, ghost i: nat)
      requires Whole() && (node in repr ==> i < |nodes| && nodes[i] == node && RisenAt(Keys(nodes)[i := newKey], i))
      modifies node`key
      ensures Whole() && node.key == newKey
      ensures if node in repr then Risen(nodes, i) else Sorted(nodes) == old(Sorted(nodes))
    {
      hide Keys, RisenAt, HeapOrder;
      node.key := newKey;
      assert Keys(nodes) == if node in repr then old(Keys(nodes))[i := newKey] else old(Keys(nodes));
      forall k: nat | k < |nodes|
        ensures Linked(nodes, k)
      {
        assert old(Linked(nodes, k));
      }
    }

    /** heap_swap_left and heap_swap_right */
    method SwapWithChild(node: HeapNode, child: HeapNode, ghost c: nat)
      requires Whole() && 0 < c < |nodes| && child == nodes[c] && node == nodes[Up(c)]
      modifies this`root, this`last, this`nodes, repr`parent, repr`left, repr`right
      ensures Whole() && nodes == Swapped(old(nodes), Up(c), c)
    {
      SwappedHolds(nodes, repr, Up(c), c);
      SwappedTop(nodes, c);
      ParentIs(nodes, Up(c));
      LastIs(nodes, c);
      SwappedLast(nodes, c);
      hide Shape, Swapped, Holds, At;
      var parent := node.parent;
      Lower(nodes, repr, node, child, c);
      nodes := Swapped(nodes, Up(c), c);
      if parent == null {
        root := child;
      }
      if last == child {
        last := node;
      }
    }

    /** A node goes below its least child. */
    method Sink(node: HeapNode, child: HeapNode, ghost k: nat, ghost c: nat)
      requires Whole() && k < |nodes| && node == nodes[k] && Sunk(nodes, k)
      requires IsLeastChild(nodes, k, c) && child == nodes[c] && child.key < node.key
      modifies this`root, this`last, this`nodes, repr`parent, repr`left, repr`right
      ensures Whole() && |nodes| == old(|nodes|) && c < |nodes| && node == nodes[c] && Sunk(nodes, c)
    {
      SinkNode(nodes, k, c);
      hide Sunk, Shape, Swapped, Holds, At, Up, IsLeastChild;
      SwapWithChild(node, child, c);
    }

    /** heap_increse_key */
    method IncreaseKey(node: HeapNode, ghost k: nat)
      requires Whole() && k < |nodes| && node == nodes[k] && Sunk(nodes, k)
      modifies this`root, this`last, this`nodes, repr`parent, repr`left, repr`right
      ensures Valid()
      decreases |nodes| - k
    {
      var child := ChooseChild(nodes, node, k);
      hide Sunk, Sorted, Shape, IsLeastChild, At, Holds;
      if child != null {
        ghost var c: nat := if child == node.left then 2 * k + 1 else 2 * k + 2;
        Sink(node, child, k, c);
        IncreaseKey(node, c);
      }
    }

    /** heap_insert */
    method Insert(node: HeapNode)
      requires Valid() && node !in repr
      modifies this, repr`parent, repr`left, repr`right, node`parent, node`left, node`right
      ensures Valid() && repr == old(repr) + {node}
    {
      node.parent, node.left, node.right := null, null, null;
      if count == 0 {
        root, last, count := node, node, 1;
        nodes, repr := [node], {node};
      } else {
        InsertBelow(node);
      }
    }

    /** A node is linked at the end. */
    method LinkLast(node: HeapNode, parent: HeapNode)
      requires Whole() && node !in repr && LinksOf(node) == Links(null, null, null) && nodes != [] &&
        parent == nodes[Up(|nodes|)]
      modifies this, repr`parent, repr`left, repr`right, node`parent, node`left, node`right
      ensures Whole() && repr == old(repr) + {node} && nodes == old(nodes) + [node]
    {
      AppendHolds(nodes, repr, node);
      AppendEnds(nodes, node);
      ParentHeld(nodes, repr);
      hide Shape, Holds, At, LinksOf, Up;
      Append(nodes, repr, node, parent);
      count := count + 1;
      last := node;
      nodes, repr := nodes + [node], repr + {node};
    }

    method InsertBelow(node: HeapNode)
      requires Valid() && node !in repr && LinksOf(node) == Links(null, null, null) && count > 0
      modifies this, repr`parent, repr`left, repr`right, node`parent, node`left, node`right
      ensures Valid() && repr == old(repr) + {node}
    {
      hide Sorted, Shape, Risen, Holds, LinksOf, Up;
      AppendNode(nodes, node);
      var parent := FindParentInsertNode(nodes, root, last, count);
      ghost var after := nodes + [node];
      LinkLast(node, parent);
      assert nodes == after && Risen(after, |after| - 1);
      ParentIs(nodes, |nodes| - 1);
      DecreaseKey(node, |nodes| - 1);
    }

    /** The last node is taken out and another one becomes the last node. */
    method UnlinkLast(newMin: HeapNode)
      requires Shape(nodes) && |nodes| > 2 && root == nodes[0] && newMin == nodes[|nodes| - 1] && count == |nodes| - 1
      modifies this`last, nodes`left, nodes`right
      ensures Shape(nodes[..|nodes| - 1]) && last == nodes[|nodes| - 2]
    {
      ParentOf(nodes, |nodes| - 1);
      var parent := newMin.parent;
      ghost var rest := nodes[..|nodes| - 1];
      var left := DropLast(nodes, newMin, parent);
      hide Shape;
      if left {
        last := FindLastNode(rest, root, parent, count);
      } else {
        last := parent.left;
      }
    }

    /** The last node goes to the root. */
    method MoveLastToRoot(min: HeapNode, newMin: HeapNode)
      requires Shape(nodes) && Holds(nodes, repr) && |nodes| > 2 && min == root == nodes[0]
      requires newMin == nodes[|nodes| - 1] && count == |nodes| - 1
      modifies this`root, this`last, this`nodes, this`repr, repr`parent, repr`left, repr`right
      ensures Whole() && nodes == old(nodes)[..|old(nodes)| - 1][0 := newMin] && repr == old(repr) - {min}
    {
      ghost var rest := nodes[..|nodes| - 1];
      TakeHolds(nodes, repr);
      TakeEnds(nodes, newMin);
      UnlinkLast(newMin);
      hide Shape, Holds, At;
      ReplaceRoot(rest, repr, min, newMin);
      root := newMin;
      nodes, repr := rest[0 := newMin], repr - {min};
    }

    /** The tree without its root, when more than two nodes are left. */
    method RemoveRoot(min: HeapNode, newMin: HeapNode)
      requires Shape(nodes) && Holds(nodes, repr) && |nodes| > 2 && min == root == nodes[0] && Sorted(nodes)
      requires newMin == nodes[|nodes| - 1] && count == |nodes| - 1
      modifies this`root, this`last, this`nodes, this`repr, repr`parent, repr`left, repr`right
      ensures Valid() && repr == old(repr) - {min}
    {
      ghost var after := nodes[..|nodes| - 1][0 := newMin];
      ReplaceNode(nodes, newMin);
      assert after[0] == newMin;
      hide Shape, Holds, Sorted, Sunk, At;
      MoveLastToRoot(min, newMin);
      assert nodes == after && Sunk(after, 0);
      IncreaseKey(newMin, 0);
    }

    /** The root is taken out. */
    method TakeRoot(min: HeapNode)
      requires Valid() && min == root
      modifies this, repr`parent, repr`left, repr`right
      ensures Valid() && repr == old(repr) - {min}
    {
      SmallShape(nodes, repr);
      hide Shape, Sorted, Holds;
      var newMin := last;
      count := count - 1;
      if count == 0 {
        last, root := null, null;
        Clear();
      } else if count == 1 {
        last, root := newMin, newMin;
        newMin.parent := null;
        Keep(newMin);
      } else {
        RemoveRoot(min, newMin);
      }
    }

    ghost method Clear()
      requires count == 0 && root == null && last == null
      modifies this`nodes, this`repr
      ensures Valid() && repr == {}
    {
      nodes, repr := [], {};
    }

    ghost method Keep(node: HeapNode)
      requires count == 1 && root == node && last == node && LinksOf(node) == Links(null, null, null)
      modifies this`nodes, this`repr
      ensures Valid() && repr == {node}
    {
      nodes, repr := [node], {node};
    }

    /** heap_extract_min */
    method ExtractMin() returns (min: HeapNode?)
      requires Valid()
      modifies this, repr`parent, repr`left, repr`right
      ensures Valid() && (min == null <==> old(repr) == {}) && repr == (if min == null then {} else old(repr) - {min})
      ensures min != null ==> IsMin(min, old(repr)) && LinksOf(min) == Links(null, null, null)
    {
      min := root;
      MinAtRoot();
      if min == null {
        return;
      }
      hide Heap.Valid, IsMin;
      TakeRoot(min);
      min.parent, min.left, min.right := null, null, null;
    }

    lemma MinAtRoot()
      requires Valid()
      ensures if root == null then repr == {} else root in repr && IsMin(root, repr)
    {
      forall o | o in repr && root != null
        ensures root.key <= o.key
      {
        RootIsMin(nodes, o);
      }
    }

    /** heap_is_node_added, which holds of the nodes in the heap if all others have no links */
    method IsNodeAdded(node: HeapNode?) returns (added: bool)
      requires Valid() && (node != null && node !in repr ==> LinksOf(node) == Links(null, null, null))
      ensures added <==> node != null && node in repr
    {
      if node != null {
        NodeHasLinks(node);
        if node.parent != null || node.left != null || node.right != null {
          return true;
        }
        if node == root {
          return true;
        }
      }
      return false;
    }

    lemma NodeHasLinks(node: HeapNode)
      requires Valid()
      ensures node in repr ==> node == root || node.parent != null
      ensures root != null ==> root in repr
    {
      if node in repr {
        var i :| 0 <= i < |nodes| && nodes[i] == node;
        ParentIs(nodes, i);
      }
    }
  }
}
