/** The two HELLO serializers, with and without link quality: a neighbour list, grouped by
    type, is cut into as many HELLO messages as the output buffer demands. */
module Hello {
  import opened Entries
  import opened Framing
  import Flooding
  import opened HelloFormat
  import opened HelloOrder

  /** The header fields of the messages of one HELLO. */
  datatype Common = Common(msgType: Byte, vtime: Byte, orig: seq<Byte>, ttl: Byte, hops: Byte, htime: Byte, will: Byte)

  /** The OLSR header and the HELLO header. */
  function Header(c: Common, size: nat, seqno: nat): (h: seq<Byte>)
    ensures |h| == 12 + |c.orig| && h[2] == Net16(size)[0] && h[3] == Net16(size)[1] && h[0] == c.msgType
  {
    [c.msgType, c.vtime] + Net16(size) + c.orig + [c.ttl, c.hops] + Net16(seqno) + [0, 0, c.htime, c.will]
  }

  function HelloBytes(z: Sizes, c: Common, gs: seq<Group>, seqno: nat): (m: seq<Byte>)
    requires ValidGroups(z, gs)
  {
    Header(c, 12 + |c.orig| + |Encode(z, gs)|, seqno) + Encode(z, gs)
  }

  /** deserialize_hello: the neighbours that a received HELLO announces, first one first. */
  function Deserialize(z: Sizes, m: seq<Byte>): seq<Neighbor> {
    if |m| < 12 + z.ip then []
    else
      var size := U16(m[2], m[3]);
      if size < 12 + z.ip || |m| < size then [] else DecodeGroups(z, m[12 + z.ip..size])
  }

  /** A receiver reads from each message exactly the neighbours that were written into it. */
  lemma HelloRoundTrip(z: Sizes, c: Common, gs: seq<Group>, seqno: nat)
    requires ValidGroups(z, gs) && |c.orig| == z.ip && EntrySize(z) > 0 && 12 + z.ip + |Encode(z, gs)| < 65536
    ensures Deserialize(z, HelloBytes(z, c, gs, seqno)) == Members(gs)
  {
    hide DecodeGroups, Members, Encode, Net16, U16, Header;
    var m, b := HelloBytes(z, c, gs, seqno), Encode(z, gs);
    DecodeRoundTrip(z, gs);
    Net16RoundTrip(|m|);
    assert m[12 + z.ip..|m|] == b;
  }

  /** What other nodes read in the header of a message: its type, validity, originator, age and
      number, and the sender's interval and willingness. */
  lemma HeaderRoundTrip(z: Sizes, c: Common, gs: seq<Group>, seqno: nat)
    requires ValidGroups(z, gs) && |c.orig| == z.ip && seqno < 65536
    ensures var m := HelloBytes(z, c, gs, seqno);
      && |m| >= 12 + z.ip && m[0] == c.msgType && m[1] == c.vtime && m[4..4 + z.ip] == c.orig
      && Flooding.GetAge(m, z.ip) == Flooding.Age(c.hops, c.ttl) && Flooding.Seqno(m, z.ip) == seqno
      && m[10 + z.ip] == c.htime && m[11 + z.ip] == c.will
  {
    hide Encode, ValidGroups;
    var m := HelloBytes(z, c, gs, seqno);
    var h := Header(c, |m|, seqno);
    Net16RoundTrip(seqno);
    hide U16;
    assert m[..12 + z.ip] == h;
    assert h[4..4 + z.ip] == c.orig && h[4 + z.ip..8 + z.ip] == [c.ttl, c.hops] + Net16(seqno);
    assert forall i :: 0 <= i < 12 + z.ip ==> m[i] == h[i];
    assert h[4 + z.ip..8 + z.ip][0] == h[4 + z.ip] && h[4 + z.ip..8 + z.ip][1] == h[5 + z.ip];
    assert h[4 + z.ip..8 + z.ip][2] == h[6 + z.ip] && h[4 + z.ip..8 + z.ip][3] == h[7 + z.ip];
    assert h[8 + z.ip..] == [0, 0, c.htime, c.will];
    assert h[8 + z.ip..][2] == h[10 + z.ip] && h[8 + z.ip..][3] == h[11 + z.ip];
  }

  /** Each message passes the checks of the receiver's message walk. */
  lemma HelloWellFormed(z: Sizes, c: Common, gs: seq<Group>, seqno: nat)
    requires ValidGroups(z, gs) && |c.orig| == z.ip && 12 + z.ip + |Encode(z, gs)| < 65536
    requires z.ip % 4 == 0 && z.lq % 4 == 0
    ensures WellFormed(HelloBytes(z, c, gs, seqno), z.ip)
  {
    hide Encode, Net16, U16, Header;
    var w := EncodeWords(z, gs);
    Net16RoundTrip(12 + z.ip + |Encode(z, gs)|);
  }

  /** A body is a whole number of 32-bit words. */
  lemma {:induction false} EncodeWords(z: Sizes, gs: seq<Group>) returns (w: nat)
    requires ValidGroups(z, gs) && z.ip % 4 == 0 && z.lq % 4 == 0
    ensures |Encode(z, gs)| == 4 * w
  {
    if gs == [] {
      w := 0;
    } else {
      var v := EncodeWords(z, gs[1..]);
      var u := MemberWords(z, gs[0].members);
      w := 1 + u + v;
    }
  }

  lemma {:induction false} MemberWords(z: Sizes, ms: seq<Neighbor>) returns (w: nat)
    requires z.ip % 4 == 0 && z.lq % 4 == 0 && forall i :: 0 <= i < |ms| ==> Fits(z, ms[i])
    ensures |MemberBytes(ms)| == 4 * w
  {
    if ms == [] {
      w := 0;
    } else {
      var v := MemberWords(z, ms[1..]);
      w := z.ip / 4 + z.lq / 4 + v;
    }
  }

  /** The size that is expected before anything is written: every neighbour, and a header for
      every type pair that occurs. */
  method ExpectedSize(z: Sizes, ns: seq<Neighbor>) returns (size: nat)
    ensures size == EntriesSize(z, |ns|) + HeadersSize(Lq, ns, ALL_PAIRS)
  {
    hide Matching, NeighOf, LinkOf;
    size := 0;
    for i := 0 to MAX_NEIGH + 1
      invariant size == (if i == 0 then 0 else EntriesSize(z, |ns|)) + HeadersSize(Lq, ns, 4 * i)
    {
      for j := 0 to 4
        invariant size == (if i == 0 && j == 0 then 0 else EntriesSize(z, |ns|)) + HeadersSize(Lq, ns, 4 * i + j)
      {
        HeadersStep(ns, i, j);
        hide HeadersSize, EntriesSize;
        var extra := ExpectedGroup(z, ns, i, LinkAt(Lq, j), i == 0 && j == 0);
        size := size + extra;
      }
    }
  }

  lemma HeadersStep(ns: seq<Neighbor>, i: nat, j: nat)
    requires j < 4
    ensures HeadersSize(Lq, ns, 4 * i + j + 1) ==
            HeadersSize(Lq, ns, 4 * i + j) + if Matching(ns, i, LinkAt(Lq, j)) == [] then 0 else GROUP_HEADER
  {
    PairAt(Lq, i, j);
  }

  /** The innermost loop: the first pass over the list also counts the entries. */
  method ExpectedGroup(z: Sizes, ns: seq<Neighbor>, neighType: nat, linkType: nat, firstPass: bool) returns (size: nat)
    ensures size == (if firstPass then EntriesSize(z, |ns|) else 0) +
                    (if Matching(ns, neighType, linkType) == [] then 0 else GROUP_HEADER)
  {
    size := 0;
    var isFirst := true;
    for k := 0 to |ns|
      invariant size == (if firstPass then EntriesSize(z, k) else 0) + (if isFirst then 0 else GROUP_HEADER)
      invariant isFirst <==> Matching(ns[..k], neighType, linkType) == []
    {
      MatchingStep(ns, k, neighType, linkType);
      hide Matching;
      if firstPass {
        size := size + EntrySize(z);
      }
      if ns[k].neighType == neighType && ns[k].linkType == linkType {
        if isFirst {
          size := size + GROUP_HEADER;
          isFirst := false;
        }
      }
    }
    assert ns[..|ns|] == ns;
  }

  // ----- The serializer

  /** The neighbours of all messages, in order. */
  function AllMembers(ms: seq<seq<Group>>): seq<Neighbor> {
    if ms == [] then [] else AllMembers(ms[..|ms| - 1]) + Members(ms[|ms| - 1])
  }

  lemma AllMembersSnoc(ms: seq<seq<Group>>, gs: seq<Group>)
    ensures AllMembers(ms + [gs]) == AllMembers(ms) + Members(gs)
  {
    assert (ms + [gs])[..|ms|] == ms;
  }

  /** Messages number `first`, first + 1, ... of the given contents. */
  ghost predicate AreMessages(z: Sizes, c: Common, first: nat, contents: seq<seq<Group>>, messages: seq<seq<Byte>>) {
    && |messages| == |contents|
    && forall k :: 0 <= k < |contents| ==>
      && ValidGroups(z, contents[k]) && messages[k] == HelloBytes(z, c, contents[k], (first + k) % 65536)
      && |messages[k]| <= MAX_REMAINING
  }

  lemma MessagesSnoc(z: Sizes, c: Common, first: nat, contents: seq<seq<Group>>, messages: seq<seq<Byte>>,
      gs: seq<Group>)
    requires AreMessages(z, c, first, contents, messages) && ValidGroups(z, gs)
    requires |HelloBytes(z, c, gs, (first + |contents|) % 65536)| <= MAX_REMAINING
    ensures AreMessages(z, c, first, contents + [gs],
                        messages + [HelloBytes(z, c, gs, (first + |contents|) % 65536)])
  {
    hide HelloBytes, ValidGroups;
  }

  /** Messages of whole words pass the checks of the message walk. */
  lemma MessagesWellFormed(z: Sizes, c: Common, first: nat, contents: seq<seq<Group>>, messages: seq<seq<Byte>>)
    requires AreMessages(z, c, first, contents, messages) && |c.orig| == z.ip && z.ip % 4 == 0 && z.lq % 4 == 0
    ensures AllWellFormed(messages, z.ip)
  {
    forall k | 0 <= k < |messages|
      ensures WellFormed(messages[k], z.ip)
    {
      HelloWellFormed(z, c, contents[k], (first + k) % 65536);
      hide WellFormed;
    }
  }

  /** What the receivers of the messages read, message by message. */
  function DeserializeAll(z: Sizes, messages: seq<seq<Byte>>): seq<Neighbor> {
    if messages == [] then []
    else DeserializeAll(z, messages[..|messages| - 1]) + Deserialize(z, messages[|messages| - 1])
  }

  /** All messages together deliver exactly what was written into them. */
  lemma {:induction false} MessagesDeliver(z: Sizes, c: Common, first: nat, contents: seq<seq<Group>>,
      messages: seq<seq<Byte>>)
    requires AreMessages(z, c, first, contents, messages) && |c.orig| == z.ip && EntrySize(z) > 0
    ensures DeserializeAll(z, messages) == AllMembers(contents)
  {
    if contents != [] {
      var k := |contents| - 1;
      MessagesDeliver(z, c, first, contents[..k], messages[..k]);
      HelloRoundTrip(z, c, contents[k], (first + k) % 65536);
    }
  }

  /** The serializer between two neighbours. `buff` is the body of the message being built
      and `infoHead` the place of the header of its last group. The contents of the messages
      pushed so far, and of the one being built, are ghosts. */
  class Writer {
    const order: Order
    const z: Sizes
    const c: Common
    const net: NetBuf
    const first: nat
    var seqno: nat
    var buff: seq<Byte>
    var infoHead: nat
    var rem: int
    var isFirst: bool
    ghost var groups: seq<Group>
    ghost var contents: seq<seq<Group>>
    ghost var messages: seq<seq<Byte>>
    ghost const before: seq<seq<Byte>>

    /** An empty buffer holds the headers and one neighbour. */
    ghost predicate Roomy()
    {
      && |c.orig| == z.ip && EntrySize(z) > 0
      && 12 + z.ip + GROUP_HEADER + EntrySize(z) <= net.maxsize
      && 12 + z.ip + GROUP_HEADER + EntrySize(z) <= MAX_REMAINING
    }

    /** The body is complete; its last size field has been written. */
    ghost predicate Closed()
      reads this
    {
      ValidGroups(z, groups) && buff == Encode(z, groups) && (groups != [] ==> Draft(z, buff, groups, infoHead))
    }

    ghost predicate Valid()
      reads this, net, net.buff
    {
      && Roomy() && net.Valid()
      && rem == net.BytesLeft() - (12 + z.ip) && |buff| <= rem
      && (if isFirst then Closed() else groups != [] && Draft(z, buff, groups, infoHead))
      && AreMessages(z, c, first, contents, messages) && seqno == (first + |contents|) % 65536
      && net.Log() == before + messages
    }

    /** The last group has the type pair of n. */
    ghost predicate InGroupOf(n: Neighbor)
      reads this
    {
      groups != [] && LastGroup(groups).neighType == n.neighType && LastGroup(groups).linkType == n.linkType
    }

    /** What the next neighbour of the current type pair takes up. */
    function Required(): nat
      reads this
    {
      EntrySize(z) + if isFirst then GROUP_HEADER else 0
    }

    /** Every neighbour written so far. */
    ghost function Written(): seq<Neighbor>
      reads this
    {
      AllMembers(contents) + Members(groups)
    }

    constructor (order: Order, z: Sizes, c: Common, net: NetBuf, seqno: nat)
      requires net.Valid() && seqno < 65536
      ensures this.order == order && this.z == z && this.c == c && this.net == net && this.seqno == first == seqno
      ensures buff == [] && groups == [] && contents == [] && messages == [] && isFirst
      ensures before == net.Log() && rem == net.BytesLeft() - (12 + z.ip)
    {
      this.order, this.z, this.c, this.net, this.seqno, this.first := order, z, c, net, seqno, seqno;
      buff, infoHead, isFirst := [], 0, true;
      groups, contents, messages := [], [], [];
      before := net.Log();
      rem := net.BytesLeft() - (12 + z.ip);
    }

    /** Pushes the message; it is never refused. */
    method PushMessage()
      requires Valid() && Closed()
      modifies this`seqno, this`contents, this`messages, net`pending, net`queued, net.buff
      ensures net.Valid() && net.pending == old(net.pending) + 12 + z.ip + |buff|
      ensures AreMessages(z, c, first, contents, messages) && seqno == (first + |contents|) % 65536
      ensures net.Log() == before + messages
      ensures contents == old(contents) + [groups]
    {
      hide HelloFormat.Encode, ValidGroups, Draft, Net16, Header, AreMessages, Concat, ArePackets, NetBuf.Log,
        NetBuf.Valid;
      var message := Header(c, 12 + z.ip + |buff|, seqno) + buff;
      seqno := (seqno + 1) % 65536;
      MessagesSnoc(z, c, first, contents, messages, groups);
      Associative(before, messages, [message]);
      var n := net.Push(message);
      contents, messages := contents + [groups], messages + [message];
    }

    /** The message is full: finish it, send it, and start a new one. */
    method Flush()
      requires Valid() && groups != []
      modifies this, net, net.buff
      ensures Valid() && isFirst && groups == [] && buff == []
      ensures Written() == old(Written())
      ensures rem >= GROUP_HEADER + EntrySize(z)
    {
      hide HelloFormat.Encode, ValidGroups, Draft, Patch, AreMessages, Members, AllMembers, NetBuf.Log, NetBuf.Valid;
      EmptyBody(z);
      FinishGroup();
      PushMessage();
      net.Output();
      AllMembersSnoc(old(contents), groups);
      groups := [];
      buff := [];
      rem := net.BytesLeft() - (12 + z.ip);
    }

    /** Writes the size of the last group. */
    method FinishGroup()
      requires Valid() && groups != []
      modifies this`buff, this`isFirst
      ensures Valid() && isFirst && |buff| == |old(buff)|
    {
      hide HelloFormat.Encode, ValidGroups, Draft, Patch, AreMessages, NetBuf.Log, NetBuf.Valid;
      PatchFinishes(z, buff, groups, infoHead);
      buff := Patch(buff, infoHead);
      isFirst := true;
    }

    /** Flushes if the next neighbour does not fit. The classic serializer does not send a
        HELLO without neighbours on the way; the LQ serializer is never in that situation. */
    method MakeRoom()
      requires Valid() && (order.Lq? && groups == [] ==> rem >= GROUP_HEADER + EntrySize(z))
      modifies this, net, net.buff
      ensures Valid() && Written() == old(Written())
      ensures |buff| + Required() <= rem
      ensures !isFirst ==> groups == old(groups) && !old(isFirst)
      ensures old(|buff| + Required() <= rem) ==>
        contents == old(contents) && buff == old(buff) && isFirst == old(isFirst) && rem == old(rem)
    {
      hide HelloFormat.Encode, ValidGroups, Draft, AreMessages, Members, AllMembers, NetBuf.Log, NetBuf.Valid;
      EmptyBody(z);
      var req := EntrySize(z);
      if isFirst {
        req := req + GROUP_HEADER;
      }
      if |buff| + req > rem {
        if order.Lq? || |buff| > 0 {
          Flush();
        } else {
          net.Output();
          rem := net.BytesLeft() - (12 + z.ip);
        }
      }
    }

    /** Starts a group with the type pair of n. */
    method Open(n: Neighbor)
      requires Valid() && isFirst && Listed(n) && |buff| + GROUP_HEADER <= rem
      modifies this`buff, this`infoHead, this`groups, this`isFirst
      ensures Valid() && !isFirst && InGroupOf(n) && |buff| == |old(buff)| + GROUP_HEADER
      ensures Written() == old(Written())
    {
      hide HelloFormat.Encode, ValidGroups, Draft, AreMessages, Members, AllMembers, NetBuf.Log, NetBuf.Valid, LinkCode;
      infoHead := |buff|;
      OpenGroup(z, groups, n.neighType, n.linkType, 0, 0);
      buff := buff + [LinkCode(n.neighType, n.linkType), 0, 0, 0];
      groups := groups + [Group(n.neighType, n.linkType, [])];
      isFirst := false;
    }

    /** Writes one neighbour of the current type pair. */
    method Add(n: Neighbor)
      requires Valid() && Listed(n) && Fits(z, n) && (order.Lq? && groups == [] ==> rem >= GROUP_HEADER + EntrySize(z))
      requires !isFirst ==> InGroupOf(n)
      modifies this, net, net.buff
      ensures Valid() && !isFirst && InGroupOf(n)
      ensures Written() == old(Written()) + [n]
      ensures old(|buff| + Required() <= rem) ==>
        contents == old(contents) && |buff| == old(|buff| + Required()) && rem == old(rem)
    {
      hide HelloFormat.Encode, ValidGroups, Draft, AreMessages, Members, AllMembers, NetBuf.Log, NetBuf.Valid, LinkCode;
      MakeRoom();
      if isFirst {
        Open(n);
      }
      AddMember(z, buff, groups, infoHead, n);
      JoinMembers(groups, n);
      Associative(AllMembers(contents), Members(groups), [n]);
      buff := buff + (n.addr + n.lq);
      groups := Join(groups, n);
    }

    /** The message grew by `bytes` and was not cut. */
    twostate predicate Uncut(bytes: nat)
      reads this
    {
      contents == old(contents) && rem == old(rem) && |buff| == |old(buff)| + bytes
    }

    /** Writes the neighbours of one type pair. When there is room for all of them the
        message is not cut. */
    method WriteGroup(ns: seq<Neighbor>, neighType: nat, linkType: nat)
      requires Valid() && isFirst && neighType <= MAX_NEIGH && linkType <= LOST_LINK
      requires forall k :: 0 <= k < |ns| ==> Fits(z, ns[k])
      requires order.Lq? && groups == [] && Matching(ns, neighType, linkType) != [] ==>
        rem >= GROUP_HEADER + EntrySize(z)
      modifies this, net, net.buff
      ensures Valid() && isFirst && Written() == old(Written()) + Matching(ns, neighType, linkType)
      ensures var bytes := GroupRoom(z, Matching(ns, neighType, linkType));
        old(|buff| + bytes <= rem) ==> Uncut(bytes)
      ensures Matching(ns, neighType, linkType) == [] ==> groups == old(groups)
      ensures Matching(ns, neighType, linkType) != [] ==> groups != []
    {
      hide Writer.Valid, Members, AllMembers, Matching, GroupRoom;
      NothingYet(z, ns, neighType, linkType);
      ghost var all := Matching(ns, neighType, linkType);
      ghost var room := |buff| + GroupRoom(z, all) <= rem;
      for k := 0 to |ns|
        invariant Valid() && Written() == old(Written()) + Matching(ns[..k], neighType, linkType)
        invariant if Matching(ns[..k], neighType, linkType) == [] then
            isFirst && groups == old(groups) && Uncut(0)
          else
            !isFirst && groups != [] && LastGroup(groups).neighType == neighType &&
              LastGroup(groups).linkType == linkType
        invariant room ==> Uncut(GroupRoom(z, Matching(ns[..k], neighType, linkType)))
      {
        MatchingStep(ns, k, neighType, linkType);
        ghost var some := Matching(ns[..k], neighType, linkType);
        if ns[k].neighType != neighType || ns[k].linkType != linkType {
          assert some + [] == some;
          continue;
        }
        GroupRoomStep(z, some, ns[k], all);
        Associative(old(Written()), some, [ns[k]]);
        Add(ns[k]);
      }
      assert ns[..|ns|] == ns;
      if !isFirst {
        FinishGroup();
      }
    }

    /** The first q type pairs have been written; if everything fits, into one message. */
    ghost predicate Progress(ns: seq<Neighbor>, q: nat, rem0: int)
      reads this, net, net.buff
    {
      && Valid() && isFirst && Written() == Grouped(order, ns, q)
      && (groups == [] ==> rem == rem0)
      && (TotalRoom(z, order, ns, ALL_PAIRS) <= rem0 ==>
            contents == [] && rem == rem0 && |buff| == TotalRoom(z, order, ns, q))
    }

    method WritePair(ns: seq<Neighbor>, i: nat, j: nat, ghost rem0: int)
      requires i <= MAX_NEIGH && j < 4 && Progress(ns, 4 * i + j, rem0)
      requires forall k :: 0 <= k < |ns| ==> Fits(z, ns[k])
      requires order.Lq? && Grouped(order, ns, ALL_PAIRS) != [] ==> rem0 >= GROUP_HEADER + EntrySize(z)
      modifies this, net, net.buff
      ensures Progress(ns, 4 * i + j + 1, rem0)
    {
      hide Writer.Valid, Matching, Members, AllMembers, Grouped, TotalRoom, NeighOf, LinkOf, EntriesSize;
      ValidFits();
      PairAt(order, i, j);
      PairStep(z, order, ns, 4 * i + j);
      WriteGroup(ns, i, LinkAt(order, j));
    }

    lemma ValidFits()
      requires Valid()
      ensures |buff| <= rem
    {
    }

    /** A writer that has written nothing yet. */
    ghost predicate Fresh()
      reads this, net, net.buff
    {
      && Roomy() && net.Valid() && seqno == first < 65536 && isFirst
      && buff == [] && groups == [] && contents == [] && messages == []
      && before == net.Log() && rem == net.BytesLeft() - (12 + z.ip)
    }

    /** serialize_lq_hello and serialize_hello4. */
    method Serialize(ns: seq<Neighbor>)
      requires Fresh() && forall k :: 0 <= k < |ns| ==> Fits(z, ns[k])
      modifies this, net, net.buff
      ensures net.Valid() && net.Log() == before + messages
      ensures contents != [] && AreMessages(z, c, first, contents, messages)
      ensures AllMembers(contents) == DeserializeAll(z, messages) == Grouped(order, ns, ALL_PAIRS)
      ensures var total := TotalRoom(z, order, ns, ALL_PAIRS);
        if order.Lq? then 12 + z.ip + total <= net.maxsize && 12 + z.ip + total <= MAX_REMAINING ==> |contents| == 1
        else total <= old(rem) ==> |contents| == 1
    {
      if order.Lq? {
        StartLq(ns);
      } else {
        StartClassic(ns);
      }
      hide Writer.Valid, Writer.Progress, Writer.Roomy, Grouped, TotalRoom, AllMembers, Members, AreMessages,
        NetBuf.Log, NetBuf.Valid;
      ghost var rem0 := rem;
      WritePairs(ns, rem0);
      Done(ns, rem0);
      AllMembersSnoc(contents, groups);
      PushMessage();
      MessagesDeliver(z, c, first, contents, messages);
    }

    /** The two outer loops. */
    method WritePairs(ns: seq<Neighbor>, ghost rem0: int)
      requires Progress(ns, 0, rem0)
      requires forall k :: 0 <= k < |ns| ==> Fits(z, ns[k])
      requires order.Lq? && Grouped(order, ns, ALL_PAIRS) != [] ==> rem0 >= GROUP_HEADER + EntrySize(z)
      modifies this, net, net.buff
      ensures Progress(ns, ALL_PAIRS, rem0)
    {
      hide Writer.Progress, Grouped;
      for i := 0 to MAX_NEIGH + 1
        invariant Progress(ns, 4 * i, rem0)
      {
        for j := 0 to 4
          invariant Progress(ns, 4 * i + j, rem0)
        {
          WritePair(ns, i, j, rem0);
        }
      }
    }

    lemma Done(ns: seq<Neighbor>, rem0: int)
      requires Progress(ns, ALL_PAIRS, rem0)
      ensures Valid() && Closed() && Written() == Grouped(order, ns, ALL_PAIRS)
      ensures TotalRoom(z, order, ns, ALL_PAIRS) <= rem0 ==> contents == []
    {
    }

    /** The LQ serializer sends what is pending if the whole HELLO does not fit behind it. */
    method StartLq(ns: seq<Neighbor>)
      requires Fresh() && order.Lq?
      modifies this`rem, net, net.buff
      ensures Progress(ns, 0, rem)
      ensures Grouped(order, ns, ALL_PAIRS) != [] ==> rem >= GROUP_HEADER + EntrySize(z)
      ensures var total := 12 + z.ip + TotalRoom(z, order, ns, ALL_PAIRS);
        total <= net.maxsize && total <= MAX_REMAINING ==> TotalRoom(z, order, ns, ALL_PAIRS) <= rem
    {
      hide NetBuf.Log, NetBuf.Valid;
      EmptyBody(z);
      ExpectedCovers(z, order, ns);
      var expected := 0;
      if net.pending > 0 {
        expected := ExpectedSize(z, ns);
      }
      if rem < expected {
        net.Output();
        rem := net.BytesLeft() - (12 + z.ip);
      }
      assert Grouped(order, ns, 0) == [];
    }

    /** The classic serializer does so if not even the headers fit. */
    method StartClassic(ns: seq<Neighbor>)
      requires Fresh() && order.Classic?
      modifies this`rem, net, net.buff
      ensures Progress(ns, 0, rem) && (old(rem) >= 0 ==> rem == old(rem))
    {
      hide NetBuf.Log, NetBuf.Valid;
      EmptyBody(z);
      if rem < 0 {
        net.Output();
        rem := net.BytesLeft() - (12 + z.ip);
      }
      assert Grouped(order, ns, 0) == [];
    }
  }

  /** From one node to another: the HELLO is serialized, everything is sent, and the receiver
      parses all packets and deserializes what comes after the first `skip` messages, which
      were there before. It reads every listed neighbour once, in group order. */
  method SendAndReceive(w: Writer, ns: seq<Neighbor>, skip: nat) returns (received: seq<Neighbor>)
    requires w.Fresh() && AllWellFormed(w.net.Log(), w.z.ip) && skip == |w.net.Log()|
    requires w.z.ip % 4 == 0 && w.z.lq % 4 == 0 && forall k :: 0 <= k < |ns| ==> Fits(w.z, ns[k])
    modifies w, w.net, w.net.buff
    ensures received == Grouped(w.order, ns, ALL_PAIRS)
  {
    assert |w.c.orig| == w.z.ip;
    w.Serialize(ns);
    MessagesWellFormed(w.z, w.c, w.first, w.contents, w.messages);
    PartsWellFormed(w.before, w.messages, w.z.ip);
    hide AreMessages, AllWellFormed, NetBuf.Valid, NetBuf.Log, Grouped, DeserializeAll, AllMembers;
    var parsed := ReceiveAll(w.net, w.z.ip);
    assert parsed[skip..] == w.messages;
    received := DeserializeAll(w.z, parsed[skip..]);
  }
}
