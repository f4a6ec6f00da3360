/** Default forwarding of one message, and what it amounts to in a whole mesh. */
module Flooding {
  import opened Topology
  import opened Framing
  import D = DuplicateSet

  /** The two header bytes that forwarding changes. */
  datatype Age = Age(hopcnt: nat, ttl: nat)

  /** Overdue messages are not aged and leave on ether interfaces only. */
  predicate IsTtl1(a: Age) {
    a.ttl < 2 || 255 < a.hopcnt + a.ttl
  }

  /** 8-bit increment and decrement. */
  function Aged(a: Age): Age {
    if IsTtl1(a) then a else Age((a.hopcnt + 1) % 256, (a.ttl + 255) % 256)
  }

  /** One forwarding keeps hop count plus time to live, without 8-bit wrap-around. */
  lemma AgedKeepsSum(a: Age)
    requires a.hopcnt < 256 && a.ttl < 256
    ensures Aged(a).hopcnt + Aged(a).ttl == a.hopcnt + a.ttl
    ensures Aged(a).hopcnt < 256 && Aged(a).ttl < 256
    ensures Aged(a) == a || (Aged(a) == Age(a.hopcnt + 1, a.ttl - 1) && Aged(a).ttl >= 1)
  {
  }

  /** The rules for leaving through an interface. */
  predicate Leaves(isIncoming: bool, ether: bool, ttl1: bool) {
    !(isIncoming && ether) && !(ttl1 && !ether)
  }

  function GetAge(m: seq<Byte>, ipsize: nat): Age
    requires |m| >= 8 + ipsize
  {
    Age(m[5 + ipsize], m[4 + ipsize])
  }

  function SetAge(m: seq<Byte>, ipsize: nat, a: Age): seq<Byte>
    requires |m| >= 8 + ipsize && a.hopcnt < 256 && a.ttl < 256
  {
    m[5 + ipsize := a.hopcnt][4 + ipsize := a.ttl]
  }

  class Interface {
    const netbuf: NetBuf
    const ether: bool

    constructor (netbuf: NetBuf, ether: bool)
      ensures this.netbuf == netbuf && this.ether == ether
    {
      this.netbuf := netbuf;
      this.ether := ether;
    }
  }

  /** What an interface accepts of a message: all of it, or nothing if no packet can hold it. */
  function Taken(buf: NetBuf, m: seq<Byte>): seq<seq<Byte>> {
    if |m| <= buf.maxsize then [m] else []
  }

  /** What an interface gets when message m leaves the node. */
  function Gets(ifn: Interface, inIf: Interface, ttl1: bool, m: seq<Byte>): seq<seq<Byte>> {
    if Leaves(ifn == inIf, ifn.ether, ttl1) then Taken(ifn.netbuf, m) else []
  }

  predicate IsNew(entries: map<Addr, D.Entry>, originator: Addr, seqno: nat) {
    originator !in entries || !D.Receive(entries[originator], seqno).1.Blocked?
  }

  /** The duplicate entries once a message has been seen. */
  function Noted(entries: map<Addr, D.Entry>, originator: Addr, seqno: nat): map<Addr, D.Entry> {
    entries[originator := if originator in entries then D.Receive(entries[originator], seqno).0 else D.Create(seqno)]
  }

  /** Piggybacks the message on what is pending, flushing first when it does not fit. */
  method Enqueue(buf: NetBuf, m: seq<Byte>)
    requires buf.Valid()
    modifies buf, buf.buff
    ensures buf.Valid() && buf.Log() == old(buf.Log()) + Taken(buf, m)
  {
    if buf.pending > 0 {
      var n := buf.Push(m);
      if n != |m| {
        buf.Output();
        n := buf.Push(m);
      }
    } else {
      var n := buf.Push(m);
    }
  }

  method SendOn(ifn: Interface, inIf: Interface, ttl1: bool, m: seq<Byte>)
    requires ifn.netbuf.Valid()
    modifies ifn.netbuf, ifn.netbuf.buff
    ensures ifn.netbuf.Valid() && ifn.netbuf.Log() == old(ifn.netbuf.Log()) + Gets(ifn, inIf, ttl1, m)
  {
    if ifn == inIf && ifn.ether {
      return;
    }
    if ttl1 && !ifn.ether {
      return;
    }
    Enqueue(ifn.netbuf, m);
  }

  ghost predicate Separate(ifs: seq<Interface>) {
    forall i, j :: 0 <= i < |ifs| && 0 <= j < |ifs| && i != j ==>
      ifs[i] != ifs[j] && ifs[i].netbuf != ifs[j].netbuf && ifs[i].netbuf.buff != ifs[j].netbuf.buff
  }

  ghost function Footprint(ifs: seq<Interface>): set<object> {
    (set i | 0 <= i < |ifs| :: ifs[i].netbuf as object) + (set i | 0 <= i < |ifs| :: ifs[i].netbuf.buff as object)
  }

  /** The loop over the interfaces: every interface that the message may leave through gets
      it exactly once, behind everything it got before; the others get nothing. */
  method SendOut(m: seq<Byte>, ttl1: bool, ifs: seq<Interface>, inIf: Interface)
    requires Separate(ifs) && forall i :: 0 <= i < |ifs| ==> ifs[i].netbuf.Valid()
    modifies Footprint(ifs)
    ensures forall i :: 0 <= i < |ifs| ==> ifs[i].netbuf.Valid()
    ensures forall i :: 0 <= i < |ifs| ==> ifs[i].netbuf.Log() == old(ifs[i].netbuf.Log()) + Gets(ifs[i], inIf, ttl1, m)
  {
    hide Gets, NetBuf.Log, NetBuf.Valid;
    for k := 0 to |ifs|
      invariant forall i :: 0 <= i < |ifs| ==> ifs[i].netbuf.Valid()
      invariant forall i :: 0 <= i < k ==> ifs[i].netbuf.Log() == old(ifs[i].netbuf.Log()) + Gets(ifs[i], inIf, ttl1, m)
      invariant forall i :: k <= i < |ifs| ==> ifs[i].netbuf.Log() == old(ifs[i].netbuf.Log())
    {
      assert ifs[k].netbuf.Log() == old(ifs[k].netbuf.Log());
      SendOn(ifs[k], inIf, ttl1, m);
    }
  }

  /** What an interface gets of a forwarded message. One that can still travel leaves once on
      every interface, one hop older, except on an ether interface that it came in on. One that
      cannot leaves as it is, and only on the other ether interfaces. */
  function Passed(ifn: Interface, inIf: Interface, m: seq<Byte>, ipsize: nat): seq<seq<Byte>>
    requires |m| >= 8 + ipsize
  {
    var hopcnt: int, ttl: int := m[5 + ipsize], m[4 + ipsize];
    if |m| > ifn.netbuf.maxsize then []
    else if 2 <= ttl && hopcnt + ttl <= 255 then
      if ifn == inIf && ifn.ether then [] else [m[5 + ipsize := hopcnt + 1][4 + ipsize := ttl - 1]]
    else if ifn != inIf && ifn.ether then [m] else []
  }

  lemma PassedIs(ifn: Interface, inIf: Interface, m: seq<Byte>, ipsize: nat)
    requires |m| >= 8 + ipsize
    ensures var age := GetAge(m, ipsize);
      Gets(ifn, inIf, IsTtl1(age), SetAge(m, ipsize, Aged(age))) == Passed(ifn, inIf, m, ipsize)
  {
    var hopcnt, ttl := m[5 + ipsize], m[4 + ipsize];
    assert m[5 + ipsize := hopcnt][4 + ipsize := ttl] == m;
  }

  /** olsr_forward_message: only for messages from a symmetric neighbour that selected us as
      its relay, and only once per duplicate check. */
  method ForwardMessage(m: seq<Byte>, ipsize: nat, originator: Addr, isSymNeighbor: bool, isMprSelector: bool,
                        table: D.DuplicateTable, ifs: seq<Interface>, inIf: Interface) returns (forwarded: bool)
    requires WellFormed(m, ipsize) && table.Valid()
    requires Separate(ifs) && forall i :: 0 <= i < |ifs| ==> ifs[i].netbuf.Valid()
    requires table !in Footprint(ifs)
    modifies Footprint(ifs), table
    ensures table.Valid() && forall i :: 0 <= i < |ifs| ==> ifs[i].netbuf.Valid()
    ensures forwarded <==> isSymNeighbor && isMprSelector && IsNew(old(table.entries), originator, Seqno(m, ipsize))
    ensures table.entries == if isSymNeighbor && isMprSelector
      then Noted(old(table.entries), originator, Seqno(m, ipsize)) else old(table.entries)
    ensures !forwarded ==> forall i :: 0 <= i < |ifs| ==> ifs[i].netbuf.Log() == old(ifs[i].netbuf.Log())
    ensures forwarded ==> forall i :: 0 <= i < |ifs| ==>
      ifs[i].netbuf.Log() == old(ifs[i].netbuf.Log()) + Passed(ifs[i], inIf, m, ipsize)
  {
    var age := GetAge(m, ipsize);
    var ttl1 := IsTtl1(age);
    if !isSymNeighbor || !isMprSelector {
      return false;
    }
    var dup := table.MessageIsDuplicate(originator, Seqno(m, ipsize));
    if dup {
      return false;
    }
    var m' := m;
    if !ttl1 {
      m' := m'[5 + ipsize := (m'[5 + ipsize] as int + 1) % 256];
      m' := m'[4 + ipsize := (m'[4 + ipsize] as int + 255) % 256];
    }
    assert m' == SetAge(m, ipsize, Aged(age));
    forall i | 0 <= i < |ifs|
      ensures Gets(ifs[i], inIf, ttl1, m') == Passed(ifs[i], inIf, m, ipsize)
    {
      PassedIs(ifs[i], inIf, m, ipsize);
    }
    hide Gets, Passed, NetBuf.Valid, NetBuf.Log;
    SendOut(m', ttl1, ifs, inIf);
    return true;
  }

  function Seqno(m: seq<Byte>, ipsize: nat): nat
    requires |m| >= 8 + ipsize
  {
    U16(m[6 + ipsize], m[7 + ipsize])
  }

  // ----- A mesh in which one message is flooded

  type Node = nat

  /** Node `node` receives on its interface `inIf`. */
  datatype Port = Port(node: Node, inIf: nat)

  /** Interfaces of every node, which of them are ether interfaces, and who hears what is
      sent out of an interface. */
  datatype Mesh = Mesh(
    nodes: seq<Node>, originator: Node, ports: map<Node, nat>, ether: set<Port>, hears: map<Port, seq<Port>>)

  datatype Copy = Copy(to: Port, age: Age)

  /** entries[v] is the duplicate entry of node v for the originator; forwards[v] counts how
      often v forwarded the message. */
  datatype State = State(entries: map<Node, D.Entry>, forwards: map<Node, nat>, inflight: multiset<Copy>)

  function HeardOn(mesh: Mesh, p: Port): seq<Port> {
    if p in mesh.hears then mesh.hears[p] else []
  }

  function Copies(ports: seq<Port>, a: Age): seq<Copy> {
    seq(|ports|, i requires 0 <= i < |ports| => Copy(ports[i], a))
  }

  /** What a node that forwards copy c puts on the air through its interface k. */
  function EmitOn(mesh: Mesh, c: Copy, k: nat): seq<Copy> {
    var out := Port(c.to.node, k);
    if Leaves(c.to.inIf == k, out in mesh.ether, IsTtl1(c.age)) then Copies(HeardOn(mesh, out), Aged(c.age)) else []
  }

  /** The same through its first k interfaces. */
  function Emit(mesh: Mesh, c: Copy, k: nat): seq<Copy> {
    if k == 0 then [] else Emit(mesh, c, k - 1) + EmitOn(mesh, c, k - 1)
  }

  function EmitAll(mesh: Mesh, c: Copy): seq<Copy> {
    Emit(mesh, c, if c.to.node in mesh.ports then mesh.ports[c.to.node] else 0)
  }

  /** Delivery of copy c. Whether the sender is a symmetric neighbour and MPR selector of the
      receiver, and whether a handler vetoes forwarding, is left open in `pass`. */
  function Deliver(mesh: Mesh, seqno: nat, s: State, c: Copy, pass: bool): State
    requires c in s.inflight
  {
    var v, rest := c.to.node, s.inflight - multiset{c};
    if !pass || v == mesh.originator then s.(inflight := rest)
    else if IsNew(s.entries, v, seqno) then Forward(mesh, seqno, s, c)
    else State(Noted(s.entries, v, seqno), s.forwards, rest)
  }

  function Forward(mesh: Mesh, seqno: nat, s: State, c: Copy): State
    requires c in s.inflight
  {
    var v, rest := c.to.node, s.inflight - multiset{c};
    State(Noted(s.entries, v, seqno),
          s.forwards[v := (if v in s.forwards then s.forwards[v] else 0) + 1],
          rest + multiset(EmitAll(mesh, c)))
  }

  /** No node is listed twice, and only nodes hear anything. */
  ghost predicate ValidMesh(mesh: Mesh) {
    && (forall i, j :: 0 <= i < j < |mesh.nodes| ==> mesh.nodes[i] != mesh.nodes[j])
    && (forall p, q :: p in mesh.hears && q in mesh.hears[p] ==> q.node in mesh.nodes)
  }

  /** How many ports hear what node v sends out of its first k interfaces. */
  function HeardFrom(mesh: Mesh, v: Node, k: nat): nat {
    if k == 0 then 0 else HeardFrom(mesh, v, k - 1) + |HeardOn(mesh, Port(v, k - 1))|
  }

  /** The same for all of its interfaces. */
  function Degree(mesh: Mesh, v: Node): nat {
    HeardFrom(mesh, v, if v in mesh.ports then mesh.ports[v] else 0)
  }

  /** The number of links of a mesh. */
  function Links(mesh: Mesh, vs: seq<Node>): nat {
    if vs == [] then 0 else Degree(mesh, vs[0]) + Links(mesh, vs[1..])
  }

  lemma {:induction false} EmitFits(mesh: Mesh, c: Copy, k: nat)
    ensures |Emit(mesh, c, k)| <= HeardFrom(mesh, c.to.node, k)
  {
    if k > 0 {
      EmitFits(mesh, c, k - 1);
    }
  }

  /** A node that forwards puts no more copies on the air than it has links. */
  lemma EmitAllFits(mesh: Mesh, c: Copy)
    ensures |EmitAll(mesh, c)| <= Degree(mesh, c.to.node)
  {
    EmitFits(mesh, c, if c.to.node in mesh.ports then mesh.ports[c.to.node] else 0);
  }

  /** How often node v may still forward: twice without an entry, once after the entry was
      created, and never after the number was recorded. */
  function Credit(s: State, seqno: nat, v: Node): nat {
    if v !in s.entries then 2 else if s.entries[v] == D.Create(seqno) then 1 else 0
  }

  /** How many copies nodes may still put on the air. */
  function Credits(mesh: Mesh, s: State, seqno: nat, vs: seq<Node>): nat {
    if vs == [] then 0 else Degree(mesh, vs[0]) * Credit(s, seqno, vs[0]) + Credits(mesh, s, seqno, vs[1..])
  }

  /** A node did not forward more often than the credits it used up. */
  ghost predicate NodeAccounted(seqno: nat, s: State, v: Node) {
    && (v in s.entries ==> v in s.forwards && (s.entries[v] == D.Create(seqno) || s.entries[v] == D.Entry(seqno, 0, 1)))
    && (v in s.forwards ==> s.forwards[v] + Credit(s, seqno, v) <= 2)
  }

  ghost predicate Accounted(seqno: nat, s: State) {
    forall v :: NodeAccounted(seqno, s, v)
  }

  /** Every copy in flight is addressed to a node and has the same age sum. */
  ghost predicate Flying(mesh: Mesh, sum: nat, inflight: multiset<Copy>) {
    forall c :: c in inflight ==>
      c.to.node in mesh.nodes && c.age.hopcnt < 256 && c.age.ttl < 256 && c.age.hopcnt + c.age.ttl == sum
  }

  lemma ReceiveTwice(seqno: nat)
    ensures D.Receive(D.Create(seqno), seqno) == (D.Entry(seqno, 0, 1), D.Accepted)
    ensures D.Receive(D.Entry(seqno, 0, 1), seqno) == (D.Entry(seqno, 0, 1), D.Blocked)
  {
  }

  lemma {:induction false} EmitAgesOn(mesh: Mesh, c: Copy, k: nat)
    requires ValidMesh(mesh)
    ensures forall d :: d in Emit(mesh, c, k) ==> d.age == Aged(c.age) && d.to.node in mesh.nodes
  {
    if k > 0 {
      EmitAgesOn(mesh, c, k - 1);
    }
  }

  lemma EmitAges(mesh: Mesh, c: Copy)
    requires ValidMesh(mesh)
    ensures forall d :: d in EmitAll(mesh, c) ==> d.age == Aged(c.age) && d.to.node in mesh.nodes
  {
    EmitAgesOn(mesh, c, if c.to.node in mesh.ports then mesh.ports[c.to.node] else 0);
  }

  lemma {:induction false} CreditsChange(mesh: Mesh, s: State, s': State, seqno: nat, vs: seq<Node>, v: Node)
    requires forall i, j :: 0 <= i < j < |vs| ==> vs[i] != vs[j]
    requires forall u :: u != v ==> Credit(s', seqno, u) == Credit(s, seqno, u)
    requires v in vs && Credit(s, seqno, v) == Credit(s', seqno, v) + 1
    ensures Credits(mesh, s', seqno, vs) + Degree(mesh, v) == Credits(mesh, s, seqno, vs)
  {
    hide Credit, Degree;
    if vs[0] == v {
      CreditsStay(mesh, s, s', seqno, vs[1..]);
      OneLess(Degree(mesh, v), Credit(s, seqno, v), Credit(s', seqno, v));
    } else {
      CreditsChange(mesh, s, s', seqno, vs[1..], v);
    }
  }

  lemma OneLess(d: nat, c: nat, c': nat)
    requires c == c' + 1
    ensures d * c == d * c' + d
  {
  }

  lemma {:induction false} CreditsStay(mesh: Mesh, s: State, s': State, seqno: nat, vs: seq<Node>)
    requires forall i :: 0 <= i < |vs| ==> Credit(s', seqno, vs[i]) == Credit(s, seqno, vs[i])
    ensures Credits(mesh, s', seqno, vs) == Credits(mesh, s, seqno, vs)
  {
    hide Credit, Degree;
    if vs != [] {
      CreditsStay(mesh, s, s', seqno, vs[1..]);
    }
  }

  /** Copies in flight, plus as many as the remaining credits can still put on the air. */
  function Measure(mesh: Mesh, seqno: nat, s: State): nat {
    |s.inflight| + Credits(mesh, s, seqno, mesh.nodes)
  }

  lemma DeliverAccounted(mesh: Mesh, seqno: nat, s: State, c: Copy, pass: bool)
    requires Accounted(seqno, s) && c in s.inflight
    ensures Accounted(seqno, Deliver(mesh, seqno, s, c, pass))
  {
    hide D.Receive, EmitAll;
    var v, s' := c.to.node, Deliver(mesh, seqno, s, c, pass);
    ReceiveTwice(seqno);
    assert NodeAccounted(seqno, s, v);
    assert NodeAccounted(seqno, s', v);
    forall u | u != v
      ensures NodeAccounted(seqno, s', u)
    {
      assert NodeAccounted(seqno, s, u);
    }
  }

  lemma DeliverAdds(mesh: Mesh, seqno: nat, s: State, c: Copy, pass: bool)
    requires c in s.inflight
    ensures forall d :: d in Deliver(mesh, seqno, s, c, pass).inflight ==> d in s.inflight || d in EmitAll(mesh, c)
  {
    hide D.Receive, EmitAll, IsNew;
  }

  lemma DeliverFlying(mesh: Mesh, seqno: nat, sum: nat, s: State, c: Copy, pass: bool)
    requires ValidMesh(mesh) && Flying(mesh, sum, s.inflight) && c in s.inflight
    ensures Flying(mesh, sum, Deliver(mesh, seqno, s, c, pass).inflight)
  {
    hide Aged, Deliver, EmitAll;
    DeliverAdds(mesh, seqno, s, c, pass);
    EmitAges(mesh, c);
    AgedKeepsSum(c.age);
  }

  /** A node that forwards uses up one of its credits; otherwise none is used. */
  lemma CreditUsed(mesh: Mesh, seqno: nat, s: State, c: Copy, pass: bool)
    requires Accounted(seqno, s) && c in s.inflight
    ensures var v, s' := c.to.node, Deliver(mesh, seqno, s, c, pass);
      && (forall u :: u != v ==> Credit(s', seqno, u) == Credit(s, seqno, u))
      && Credit(s', seqno, v) == Credit(s, seqno, v) - if Forwards(mesh, seqno, s, c, pass) then 1 else 0
  {
    hide D.Receive, EmitAll;
    assert NodeAccounted(seqno, s, c.to.node);
    ReceiveTwice(seqno);
  }

  predicate Forwards(mesh: Mesh, seqno: nat, s: State, c: Copy, pass: bool) {
    pass && c.to.node != mesh.originator && IsNew(s.entries, c.to.node, seqno)
  }

  lemma InflightAfter(mesh: Mesh, seqno: nat, s: State, c: Copy, pass: bool)
    requires c in s.inflight
    ensures |Deliver(mesh, seqno, s, c, pass).inflight| ==
      |s.inflight| - 1 + if Forwards(mesh, seqno, s, c, pass) then |EmitAll(mesh, c)| else 0
  {
  }

  /** Every delivery uses up some of the measure. */
  lemma DeliverShrinks(mesh: Mesh, seqno: nat, s: State, c: Copy, pass: bool)
    requires ValidMesh(mesh) && Accounted(seqno, s) && c in s.inflight && c.to.node in mesh.nodes
    ensures Measure(mesh, seqno, Deliver(mesh, seqno, s, c, pass)) < Measure(mesh, seqno, s)
  {
    hide Accounted, Credit, Credits, Deliver, EmitAll, IsNew, Degree;
    var v, s' := c.to.node, Deliver(mesh, seqno, s, c, pass);
    CreditUsed(mesh, seqno, s, c, pass);
    InflightAfter(mesh, seqno, s, c, pass);
    if Forwards(mesh, seqno, s, c, pass) {
      CreditsChange(mesh, s, s', seqno, mesh.nodes, v);
      EmitAllFits(mesh, c);
    } else {
      CreditsStay(mesh, s, s', seqno, mesh.nodes);
    }
  }

  /** A run: each state comes from the one before by some delivery. */
  ghost predicate IsRun(mesh: Mesh, seqno: nat, run: seq<State>) {
    run != [] && forall i :: 0 < i < |run| ==> IsDelivery(mesh, seqno, run[i - 1], run[i])
  }

  ghost predicate IsDelivery(mesh: Mesh, seqno: nat, s: State, s': State) {
    exists c, pass :: c in s.inflight && s' == Deliver(mesh, seqno, s, c, pass)
  }

  /** Nobody knows the message yet; the copies of the originator are on the air. */
  ghost predicate IsStart(mesh: Mesh, sum: nat, s: State) {
    s.entries == map[] && s.forwards == map[] && Flying(mesh, sum, s.inflight)
  }

  lemma {:induction false} NoEntriesCredits(mesh: Mesh, s: State, seqno: nat, vs: seq<Node>)
    requires s.entries == map[]
    ensures Credits(mesh, s, seqno, vs) == 2 * Links(mesh, vs)
  {
    hide Degree;
    if vs != [] {
      NoEntriesCredits(mesh, s, seqno, vs[1..]);
    }
  }

  lemma {:induction false} RunKeeps(mesh: Mesh, seqno: nat, sum: nat, run: seq<State>)
    requires ValidMesh(mesh) && IsRun(mesh, seqno, run) && IsStart(mesh, sum, run[0])
    ensures Accounted(seqno, run[|run| - 1]) && Flying(mesh, sum, run[|run| - 1].inflight)
    ensures |run| - 1 + Measure(mesh, seqno, run[|run| - 1]) <= Measure(mesh, seqno, run[0])
  {
    if |run| > 1 {
      var init := run[..|run| - 1];
      assert IsRun(mesh, seqno, init);
      RunKeeps(mesh, seqno, sum, init);
      var s := run[|run| - 2];
      assert IsDelivery(mesh, seqno, run[|run| - 1 - 1], run[|run| - 1]);
      var c, pass :| c in s.inflight && run[|run| - 1] == Deliver(mesh, seqno, s, c, pass);
      hide Accounted, Measure, Deliver;
      DeliverAccounted(mesh, seqno, s, c, pass);
      DeliverFlying(mesh, seqno, sum, s, c, pass);
      DeliverShrinks(mesh, seqno, s, c, pass);
    }
  }

  /** Flooding ends after a number of deliveries fixed by the links of the mesh, ether interfaces and
      unaged messages included; no node forwards more than twice; and every copy ever on the
      air has the same hop count plus time to live as the first. */
  lemma FloodingEnds(mesh: Mesh, seqno: nat, sum: nat, run: seq<State>)
    requires ValidMesh(mesh) && IsRun(mesh, seqno, run) && IsStart(mesh, sum, run[0])
    ensures |run| - 1 <= |run[0].inflight| + 2 * Links(mesh, mesh.nodes)
    ensures var s := run[|run| - 1];
      Flying(mesh, sum, s.inflight) && forall v :: v in s.forwards ==> s.forwards[v] <= 2
  {
    hide Measure, ValidMesh, IsStart, Flying, Accounted;
    RunKeeps(mesh, seqno, sum, run);
    StartMeasure(mesh, seqno, sum, run[0]);
    AtMostTwice(seqno, run[|run| - 1]);
  }

  lemma StartMeasure(mesh: Mesh, seqno: nat, sum: nat, s: State)
    requires IsStart(mesh, sum, s)
    ensures Measure(mesh, seqno, s) == |s.inflight| + 2 * Links(mesh, mesh.nodes)
  {
    NoEntriesCredits(mesh, s, seqno, mesh.nodes);
  }

  lemma AtMostTwice(seqno: nat, s: State)
    requires Accounted(seqno, s)
    ensures forall v :: v in s.forwards ==> s.forwards[v] <= 2
  {
    forall v | v in s.forwards
      ensures s.forwards[v] <= 2
    {
      assert NodeAccounted(seqno, s, v);
    }
  }

  // ----- Flooding reaches everybody

  /** A run in which every node relays for every other. */
  ghost predicate IsFullRun(mesh: Mesh, seqno: nat, run: seq<State>) {
    run != [] && forall i :: 0 < i < |run| ==> IsFullDelivery(mesh, seqno, run[i - 1], run[i])
  }

  ghost predicate IsFullDelivery(mesh: Mesh, seqno: nat, s: State, s': State) {
    exists c :: c in s.inflight && s' == Deliver(mesh, seqno, s, c, true)
  }

  /** Node v hears what node u sends on one of its interfaces. */
  ghost predicate IsHeard(mesh: Mesh, u: Node, v: Node) {
    exists k, q :: HearsPort(mesh, u, k, q) && q.node == v
  }

  ghost predicate HearsPort(mesh: Mesh, u: Node, k: nat, q: Port) {
    u in mesh.ports && k < mesh.ports[u] && Port(u, k) in mesh.hears && q in mesh.hears[Port(u, k)]
  }

  /** Some copy in flight is addressed to node v. */
  ghost predicate IsAddressed(s: State, v: Node) {
    exists c :: c in s.inflight && c.to.node == v
  }

  /** Node v has the message, or will get it, or is its originator. */
  ghost predicate Served(mesh: Mesh, s: State, v: Node) {
    v == mesh.originator || v in s.entries || IsAddressed(s, v)
  }

  /** How often the nodes may still forward, all together. */
  function Forwardings(s: State, seqno: nat, vs: seq<Node>): nat {
    if vs == [] then 0 else Credit(s, seqno, vs[0]) + Forwardings(s, seqno, vs[1..])
  }

  /** Every copy in flight can still travel as often as there are forwardings left, and no more
      than 255 hops in all. */
  ghost predicate Fit(mesh: Mesh, seqno: nat, s: State) {
    forall c :: c in s.inflight ==>
      c.to.node in mesh.nodes && c.age.ttl > Forwardings(s, seqno, mesh.nodes) && c.age.hopcnt + c.age.ttl <= 255
  }

  /** Whoever hears a node that has the message is served. */
  ghost predicate Spread(mesh: Mesh, s: State) {
    forall u, v :: u in s.entries && IsHeard(mesh, u, v) ==> Served(mesh, s, v)
  }

  lemma {:induction false} ForwardingsChange(s: State, s': State, seqno: nat, vs: seq<Node>, v: Node, used: nat)
    requires forall i, j :: 0 <= i < j < |vs| ==> vs[i] != vs[j]
    requires forall u :: u != v ==> Credit(s', seqno, u) == Credit(s, seqno, u)
    requires Credit(s, seqno, v) == Credit(s', seqno, v) + used
    ensures Forwardings(s, seqno, vs) == Forwardings(s', seqno, vs) + if v in vs then used else 0
  {
    hide Credit;
    if vs != [] {
      ForwardingsChange(s, s', seqno, vs[1..], v, used);
    }
  }

  /** Without ether interfaces, a copy that can still travel is passed on to everybody who hears
      the node. */
  lemma EmitReaches(mesh: Mesh, c: Copy, k: nat, q: Port)
    requires mesh.ether == {} && 2 <= c.age.ttl && c.age.hopcnt + c.age.ttl <= 255
    requires HearsPort(mesh, c.to.node, k, q)
    ensures Copy(q, Age((c.age.hopcnt + 1) % 256, (c.age.ttl + 255) % 256)) in EmitAll(mesh, c)
  {
    EmitOnReaches(mesh, c, k, q);
    EmitGrows(mesh, c, k + 1, mesh.ports[c.to.node]);
  }

  lemma EmitOnReaches(mesh: Mesh, c: Copy, k: nat, q: Port)
    requires mesh.ether == {} && 2 <= c.age.ttl && c.age.hopcnt + c.age.ttl <= 255
    requires HearsPort(mesh, c.to.node, k, q)
    ensures Copy(q, Age((c.age.hopcnt + 1) % 256, (c.age.ttl + 255) % 256)) in EmitOn(mesh, c, k)
  {
    var ports := mesh.hears[Port(c.to.node, k)];
    var i :| 0 <= i < |ports| && ports[i] == q;
    assert Copies(ports, Aged(c.age))[i] == Copy(q, Aged(c.age));
  }

  lemma {:induction false} EmitGrows(mesh: Mesh, c: Copy, k: nat, n: nat)
    requires k <= n
    ensures forall d :: d in Emit(mesh, c, k) ==> d in Emit(mesh, c, n)
  {
    if k < n {
      EmitGrows(mesh, c, k, n - 1);
    }
  }

  lemma DeliverFit(mesh: Mesh, seqno: nat, s: State, c: Copy)
    requires ValidMesh(mesh) && Accounted(seqno, s) && Fit(mesh, seqno, s) && c in s.inflight
    ensures Fit(mesh, seqno, Deliver(mesh, seqno, s, c, true))
    ensures Forwards(mesh, seqno, s, c, true) ==> 2 <= c.age.ttl
  {
    var s' := Deliver(mesh, seqno, s, c, true);
    var used := if Forwards(mesh, seqno, s, c, true) then 1 else 0;
    CreditUsed(mesh, seqno, s, c, true);
    DeliverAdds(mesh, seqno, s, c, true);
    DeliverAddsOnly(mesh, seqno, s, c);
    EmitAges(mesh, c);
    hide Deliver, EmitAll, Credit, Accounted, Emit, Forwards, Aged;
    ForwardingsChange(s, s', seqno, mesh.nodes, c.to.node, used);
    OneHopOlder(c.age);
  }

  lemma OneHopOlder(a: Age)
    ensures 2 <= a.ttl && a.hopcnt + a.ttl <= 255 ==> Aged(a) == Age(a.hopcnt + 1, a.ttl - 1)
  {
  }

  lemma DeliverAddsOnly(mesh: Mesh, seqno: nat, s: State, c: Copy)
    requires c in s.inflight
    ensures !Forwards(mesh, seqno, s, c, true) ==>
      forall d :: d in Deliver(mesh, seqno, s, c, true).inflight ==> d in s.inflight
  {
    hide D.Receive, EmitAll;
  }

  lemma DeliverSpread(mesh: Mesh, seqno: nat, s: State, c: Copy)
    requires mesh.ether == {} && c in s.inflight && Accounted(seqno, s) && Spread(mesh, s)
    requires c.age.hopcnt + c.age.ttl <= 255 && (Forwards(mesh, seqno, s, c, true) ==> 2 <= c.age.ttl)
    ensures Spread(mesh, Deliver(mesh, seqno, s, c, true))
    ensures forall v :: Served(mesh, s, v) ==> Served(mesh, Deliver(mesh, seqno, s, c, true), v)
  {
    var s' := Deliver(mesh, seqno, s, c, true);
    forall v | Served(mesh, s, v)
      ensures Served(mesh, s', v)
    {
      ServedStays(mesh, seqno, s, c, v);
    }
    forall u, v | u in s'.entries && IsHeard(mesh, u, v)
      ensures Served(mesh, s', v)
    {
      EntriesGrow(mesh, seqno, s, c);
      if u in s.entries {
        assert Served(mesh, s, v);
      } else {
        NewlyServed(mesh, seqno, s, c, v);
      }
    }
  }

  lemma EntriesGrow(mesh: Mesh, seqno: nat, s: State, c: Copy)
    requires c in s.inflight
    ensures forall u :: u in Deliver(mesh, seqno, s, c, true).entries ==>
      u in s.entries || (u == c.to.node && Forwards(mesh, seqno, s, c, true))
    ensures forall u :: u in s.entries ==> u in Deliver(mesh, seqno, s, c, true).entries
    ensures c.to.node == mesh.originator || c.to.node in Deliver(mesh, seqno, s, c, true).entries
  {
    hide D.Receive, EmitAll;
  }

  lemma ServedStays(mesh: Mesh, seqno: nat, s: State, c: Copy, v: Node)
    requires c in s.inflight && Served(mesh, s, v)
    ensures Served(mesh, Deliver(mesh, seqno, s, c, true), v)
  {
    EntriesGrow(mesh, seqno, s, c);
    var s' := Deliver(mesh, seqno, s, c, true);
    if v != mesh.originator && v !in s.entries && v != c.to.node {
      var d :| d in s.inflight && d.to.node == v;
      Remains(mesh, seqno, s, c, d);
    }
  }

  lemma Remains(mesh: Mesh, seqno: nat, s: State, c: Copy, d: Copy)
    requires c in s.inflight && d in s.inflight && d != c
    ensures d in Deliver(mesh, seqno, s, c, true).inflight
  {
    hide D.Receive, EmitAll;
  }

  lemma NewlyServed(mesh: Mesh, seqno: nat, s: State, c: Copy, v: Node)
    requires mesh.ether == {} && c in s.inflight && Forwards(mesh, seqno, s, c, true)
    requires 2 <= c.age.ttl && c.age.hopcnt + c.age.ttl <= 255 && IsHeard(mesh, c.to.node, v)
    ensures Served(mesh, Deliver(mesh, seqno, s, c, true), v)
  {
    var k, q :| HearsPort(mesh, c.to.node, k, q) && q.node == v;
    EmitReaches(mesh, c, k, q);
    hide D.Receive, EmitAll;
    var d := Copy(q, Age((c.age.hopcnt + 1) % 256, (c.age.ttl + 255) % 256));
    assert d in Deliver(mesh, seqno, s, c, true).inflight;
  }

  lemma {:induction false} FullRunKeeps(mesh: Mesh, seqno: nat, run: seq<State>)
    requires ValidMesh(mesh) && mesh.ether == {} && IsFullRun(mesh, seqno, run)
    requires Accounted(seqno, run[0]) && Fit(mesh, seqno, run[0]) && Spread(mesh, run[0])
    ensures var s := run[|run| - 1];
      && Accounted(seqno, s) && Fit(mesh, seqno, s) && Spread(mesh, s)
      && forall v :: Served(mesh, run[0], v) ==> Served(mesh, s, v)
  {
    if |run| > 1 {
      var init := run[..|run| - 1];
      assert IsFullRun(mesh, seqno, init);
      FullRunKeeps(mesh, seqno, init);
      var s := run[|run| - 2];
      assert IsFullDelivery(mesh, seqno, run[|run| - 1 - 1], run[|run| - 1]);
      var c :| c in s.inflight && run[|run| - 1] == Deliver(mesh, seqno, s, c, true);
      assert c.age.hopcnt + c.age.ttl <= 255;
      hide Accounted, Deliver, Spread, Served, Fit;
      DeliverAccounted(mesh, seqno, s, c, true);
      DeliverFit(mesh, seqno, s, c);
      DeliverSpread(mesh, seqno, s, c);
    }
  }

  /** A chain of nodes other than the originator, each of which hears the one before. */
  ghost predicate IsChain(mesh: Mesh, chain: seq<Node>) {
    && (forall i :: 0 <= i < |chain| ==> chain[i] != mesh.originator)
    && forall i :: 0 < i < |chain| ==> IsHeard(mesh, chain[i - 1], chain[i])
  }

  lemma {:induction false} ForwardingsAtStart(s: State, seqno: nat, vs: seq<Node>)
    requires s.entries == map[]
    ensures Forwardings(s, seqno, vs) == 2 * |vs|
  {
    if vs != [] {
      ForwardingsAtStart(s, seqno, vs[1..]);
    }
  }

  /** When nothing is in flight any more, the message has reached every node that a chain of
      hearers connects to a first receiver, provided that it may travel more than twice as far
      as there are nodes. */
  lemma FloodingReaches(mesh: Mesh, seqno: nat, sum: nat, run: seq<State>, chain: seq<Node>, i: nat)
    requires ValidMesh(mesh) && mesh.ether == {} && IsFullRun(mesh, seqno, run) && IsStart(mesh, sum, run[0])
    requires sum <= 255 && forall c :: c in run[0].inflight ==> c.age.ttl > 2 * |mesh.nodes|
    requires run[|run| - 1].inflight == multiset{}
    requires IsChain(mesh, chain) && i < |chain| && IsAddressed(run[0], chain[0])
    ensures chain[i] in run[|run| - 1].entries
    decreases i
  {
    var s := run[|run| - 1];
    StartKeeps(mesh, seqno, sum, run[0]);
    FullRunKeeps(mesh, seqno, run);
    assert Served(mesh, run[0], chain[0]);
    if i > 0 {
      FloodingReaches(mesh, seqno, sum, run, chain, i - 1);
      assert IsHeard(mesh, chain[i - 1], chain[i]);
    }
    hide Accounted, Fit, IsHeard, IsFullRun, IsStart, ValidMesh;
    assert Served(mesh, s, chain[i]);
    assert !IsAddressed(s, chain[i]);
  }

  lemma StartKeeps(mesh: Mesh, seqno: nat, sum: nat, s: State)
    requires IsStart(mesh, sum, s) && sum <= 255 && forall c :: c in s.inflight ==> c.age.ttl > 2 * |mesh.nodes|
    ensures Accounted(seqno, s) && Fit(mesh, seqno, s) && Spread(mesh, s)
  {
    ForwardingsAtStart(s, seqno, mesh.nodes);
  }
}
