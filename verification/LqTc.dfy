/** The LQ TC serializer: the advertised neighbours are cut into fragments, and border flags
    tell the receiver which range of addresses a fragment covers. */
module LqTc {
  import opened Entries
  import opened Framing
  import Flooding
  import opened Borders

  /** An advertised neighbour with its serialized link quality. */
  datatype Advert = Advert(addr: seq<Byte>, lq: seq<Byte>)

  predicate Fits(z: Sizes, n: Advert) {
    Sized(z, n.addr, n.lq)
  }

  function Body(ms: seq<Advert>): seq<Byte> {
    if ms == [] then [] else Body(ms[..|ms| - 1]) + (ms[|ms| - 1].addr + ms[|ms| - 1].lq)
  }

  /** One message: its neighbours and its border flags. */
  datatype Fragment = Fragment(members: seq<Advert>, lower: Byte, upper: Byte)

  datatype Common = Common(msgType: Byte, vtime: Byte, orig: seq<Byte>, ttl: Byte, hops: Byte, ansn: nat)

  /** The OLSR header and the LQ TC header. */
  function Header(c: Common, size: nat, seqno: nat, lower: Byte, upper: Byte): (h: seq<Byte>)
    ensures |h| == 12 + |c.orig| && h[2] == Net16(size)[0] && h[3] == Net16(size)[1]
    ensures h[10 + |c.orig|] == lower && h[11 + |c.orig|] == upper
  {
    [c.msgType, c.vtime] + Net16(size) + c.orig + [c.ttl, c.hops] + Net16(seqno) + Net16(c.ansn) + [lower, upper]
  }

  function TcBytes(c: Common, f: Fragment, seqno: nat): seq<Byte> {
    Header(c, 12 + |c.orig| + |Body(f.members)|, seqno, f.lower, f.upper) + Body(f.members)
  }

  // ----- The receiver

  /** The walk over the edge advertisements, from the end. */
  function DecodeBody(z: Sizes, b: seq<Byte>): seq<Advert> {
    if z.ip + z.lq == 0 || |b| < z.ip + z.lq then []
    else
      var k := |b| - z.ip - z.lq;
      DecodeBody(z, b[..k]) + [Advert(b[k..k + z.ip], b[k + z.ip..])]
  }

  function Deserialize(z: Sizes, m: seq<Byte>): Fragment {
    if |m| < 12 + z.ip then Fragment([], 0, 0)
    else
      var size := U16(m[2], m[3]);
      var members := if size < 12 + z.ip || |m| < size then [] else DecodeBody(z, m[12 + z.ip..size]);
      Fragment(members, m[10 + z.ip], m[11 + z.ip])
  }

  lemma {:induction false} BodyRoundTrip(z: Sizes, ms: seq<Advert>)
    requires z.ip + z.lq > 0 && forall i :: 0 <= i < |ms| ==> Fits(z, ms[i])
    ensures DecodeBody(z, Body(ms)) == ms
  {
    hide DecodeBody;
    if ms == [] {
      DecodeNothing(z);
    } else {
      var init, n := ms[..|ms| - 1], ms[|ms| - 1];
      BodyRoundTrip(z, init);
      DecodeSnoc(z, Body(init), n);
    }
  }

  lemma DecodeNothing(z: Sizes)
    ensures DecodeBody(z, []) == []
  {
  }

  lemma DecodeSnoc(z: Sizes, e: seq<Byte>, n: Advert)
    requires z.ip + z.lq > 0 && Fits(z, n)
    ensures DecodeBody(z, e + (n.addr + n.lq)) == DecodeBody(z, e) + [n]
  {
    LastEntry(e, n.addr, n.lq);
  }

  lemma LastEntry(e: seq<Byte>, a: seq<Byte>, l: seq<Byte>)
    ensures var b := e + (a + l);
      b[..|e|] == e && b[|e|..|e| + |a|] == a && b[|e| + |a|..] == l
  {
  }

  /** A receiver reads from a message exactly the fragment that was written into it. */
  lemma TcRoundTrip(z: Sizes, c: Common, f: Fragment, seqno: nat)
    requires z.ip + z.lq > 0 && |c.orig| == z.ip && forall i :: 0 <= i < |f.members| ==> Fits(z, f.members[i])
    requires 12 + z.ip + |Body(f.members)| < 65536
    ensures Deserialize(z, TcBytes(c, f, seqno)) == f
  {
    hide Header, Net16, U16, Body, DecodeBody;
    var m := TcBytes(c, f, seqno);
    BodyRoundTrip(z, f.members);
    Net16RoundTrip(|m|);
    assert m[12 + z.ip..|m|] == Body(f.members);
  }

  /** The sequence number of the advertised neighbour set. */
  function Ansn(z: Sizes, m: seq<Byte>): nat {
    if |m| < 12 + z.ip then 0 else U16(m[8 + z.ip], m[9 + z.ip])
  }

  /** What other nodes read in the header of a message: its type, validity, originator, age and
      number, and the number of the neighbour set. */
  lemma HeaderRoundTrip(z: Sizes, c: Common, f: Fragment, seqno: nat)
    requires |c.orig| == z.ip && seqno < 65536 && c.ansn < 65536
    ensures var m := TcBytes(c, f, seqno);
      && |m| >= 12 + z.ip && m[0] == c.msgType && m[1] == c.vtime && m[4..4 + z.ip] == c.orig
      && Flooding.GetAge(m, z.ip) == Flooding.Age(c.hops, c.ttl) && Flooding.Seqno(m, z.ip) == seqno
      && Ansn(z, m) == c.ansn
  {
    hide Body;
    var m := TcBytes(c, f, seqno);
    var h := Header(c, |m|, seqno, f.lower, f.upper);
    Net16RoundTrip(seqno);
    Net16RoundTrip(c.ansn);
    hide U16;
    assert m[..12 + z.ip] == h;
    assert forall i :: 0 <= i < 12 + z.ip ==> m[i] == h[i];
    var mid := h[4 + z.ip..10 + z.ip];
    assert h[4..4 + z.ip] == c.orig && mid == [c.ttl, c.hops] + Net16(seqno) + Net16(c.ansn);
    assert forall i :: 0 <= i < 6 ==> mid[i] == h[4 + z.ip + i];
    assert mid[0] == h[4 + z.ip] && mid[1] == h[5 + z.ip] && mid[2] == h[6 + z.ip];
    assert mid[3] == h[7 + z.ip] && mid[4] == h[8 + z.ip] && mid[5] == h[9 + z.ip];
  }

  /** Each message passes the checks of the receiver's message walk. */
  lemma TcWellFormed(z: Sizes, c: Common, f: Fragment, seqno: nat)
    requires z.ip % 4 == 0 && z.lq % 4 == 0 && |c.orig| == z.ip
    requires forall i :: 0 <= i < |f.members| ==> Fits(z, f.members[i])
    requires 12 + z.ip + |Body(f.members)| < 65536
    ensures WellFormed(TcBytes(c, f, seqno), z.ip)
  {
    hide Header, Net16, U16, Body;
    var w := BodyWords(z, f.members);
    Net16RoundTrip(12 + z.ip + |Body(f.members)|);
  }

  lemma {:induction false} BodyWords(z: Sizes, ms: seq<Advert>) returns (w: nat)
    requires z.ip % 4 == 0 && z.lq % 4 == 0 && forall i :: 0 <= i < |ms| ==> Fits(z, ms[i])
    ensures |Body(ms)| == 4 * w
  {
    if ms == [] {
      w := 0;
    } else {
      var v := BodyWords(z, ms[..|ms| - 1]);
      w := z.ip / 4 + z.lq / 4 + v;
    }
  }

  // ----- What the fragments are

  function AllMembers(fs: seq<Fragment>): seq<Advert> {
    if fs == [] then [] else AllMembers(fs[..|fs| - 1]) + fs[|fs| - 1].members
  }

  /** The flag is the border between two addresses. */
  ghost predicate IsBorder(flag: Byte, l: seq<Byte>, h: seq<Byte>) {
    if l == h then flag == 0
    else 0 < flag <= 8 * |l| && TopDifference(Value(l), Value(h), flag - 1)
  }

  /** The fragments before the one being built: the first is open below, each shares its upper
      border with the next one, and `left` is the border to the one being built. */
  ghost predicate Chained(fs: seq<Fragment>, left: Byte) {
    && (fs == [] ==> left == 0xff)
    && (fs != [] ==> fs[0].lower == 0xff && fs[|fs| - 1].upper == left)
    && (forall k :: 0 <= k < |fs| - 1 ==> SharesBorder(fs[k], fs[k + 1]))
    && (forall k :: 0 <= k < |fs| ==> fs[k].members != [])
  }

  ghost predicate SharesBorder(f: Fragment, g: Fragment) {
    f.upper == g.lower && f.members != [] && g.members != []
    && IsBorder(f.upper, f.members[|f.members| - 1].addr, g.members[0].addr)
  }

  ghost predicate AreMessages(z: Sizes, c: Common, first: nat, fs: seq<Fragment>, messages: seq<seq<Byte>>) {
    && |messages| == |fs|
    && forall k :: 0 <= k < |fs| ==> IsMessage(z, c, (first + k) % 65536, fs[k], messages[k])
  }

  ghost predicate IsMessage(z: Sizes, c: Common, seqno: nat, f: Fragment, m: seq<Byte>) {
    && (forall i :: 0 <= i < |f.members| ==> Fits(z, f.members[i]))
    && m == TcBytes(c, f, seqno) && |m| <= MAX_REMAINING
  }

  /** The fragments of a whole TC: the outermost borders are open. */
  ghost predicate Fragments(ns: seq<Advert>, fs: seq<Fragment>) {
    && fs != [] && AllMembers(fs) == ns
    && fs[0].lower == 0xff && fs[|fs| - 1].upper == 0xff
    && (forall k :: 0 <= k < |fs| - 1 ==> SharesBorder(fs[k], fs[k + 1]))
  }

  lemma AllMembersSnoc(fs: seq<Fragment>, f: Fragment)
    ensures AllMembers(fs + [f]) == AllMembers(fs) + f.members
  {
    assert (fs + [f])[..|fs|] == fs;
  }

  lemma MessagesSnoc(z: Sizes, c: Common, first: nat, fs: seq<Fragment>, messages: seq<seq<Byte>>, f: Fragment,
      m: seq<Byte>)
    requires AreMessages(z, c, first, fs, messages) && IsMessage(z, c, (first + |fs|) % 65536, f, m)
    ensures AreMessages(z, c, first, fs + [f], messages + [m])
  {
    hide IsMessage;
  }

  lemma MakesMessage(z: Sizes, c: Common, seqno: nat, f: Fragment, m: seq<Byte>)
    requires forall i :: 0 <= i < |f.members| ==> Fits(z, f.members[i])
    requires m == TcBytes(c, f, seqno) && |m| <= MAX_REMAINING
    ensures IsMessage(z, c, seqno, f, m)
  {
  }

  /** The serializer between two neighbours. */
  class Writer {
    const z: Sizes
    const c: Common
    const net: NetBuf
    const first: nat
    var seqno: nat
    var buff: seq<Byte>
    var rem: int
    var leftBorder: Byte
    var lastIp: seq<Byte>
    ghost var current: seq<Advert>
    ghost var fragments: seq<Fragment>
    ghost var messages: seq<seq<Byte>>
    ghost const before: seq<seq<Byte>>

    /** An empty buffer holds the headers and one neighbour. */
    ghost predicate Roomy() {
      && |c.orig| == z.ip && 0 < z.ip <= 16
      && 12 + z.ip + z.ip + z.lq <= net.maxsize && 12 + z.ip + z.ip + z.lq <= MAX_REMAINING
    }

    ghost predicate Pushed()
      reads this, net, net.buff
    {
      && net.Valid() && AreMessages(z, c, first, fragments, messages) && seqno == (first + |fragments|) % 65536
      && net.Log() == before + messages
    }

    ghost predicate Valid()
      reads this, net, net.buff
    {
      && Roomy() && Pushed()
      && rem == net.BytesLeft() - (12 + z.ip) && |buff| <= rem
      && buff == Body(current) && (forall i :: 0 <= i < |current| ==> Fits(z, current[i]))
      && Chained(fragments, leftBorder) && (current != [] ==> lastIp == current[|current| - 1].addr)
    }

    /** The border to the fragment being built belongs to its first neighbour. */
    ghost predicate BorderKnown(next: Advert)
      reads this
    {
      var start := if current == [] then next else current[0];
      fragments != [] ==> var f := fragments[|fragments| - 1];
        f.members != [] && IsBorder(leftBorder, f.members[|f.members| - 1].addr, start.addr)
    }

    constructor (z: Sizes, c: Common, net: NetBuf, seqno: nat)
      requires net.Valid() && seqno < 65536
      ensures this.z == z && this.c == c && this.net == net && this.seqno == first == seqno
      ensures buff == [] && current == [] && fragments == [] && messages == [] && leftBorder == 0xff
      ensures before == net.Log() && rem == net.BytesLeft() - (12 + z.ip)
    {
      this.z, this.c, this.net, this.seqno, this.first := z, c, net, seqno, seqno;
      buff, current, fragments, messages, leftBorder, lastIp := [], [], [], [], 0xff, [];
      before := net.Log();
      rem := net.BytesLeft() - (12 + z.ip);
    }

    /** Pushes the fragment with the given upper border; it is never refused. */
    method PushMessage(upper: Byte)
      requires Valid()
      modifies this`seqno, this`fragments, this`messages, net`pending, net`queued, net.buff
      ensures Pushed() && fragments == old(fragments) + [Fragment(current, leftBorder, upper)]
    {
      hide Header, Body, Chained, Writer.Pushed, IsMessage, NetBuf.Log, NetBuf.Valid;
      ghost var f := Fragment(current, leftBorder, upper);
      var message := Header(c, 12 + z.ip + |buff|, seqno, leftBorder, upper) + buff;
      MakesMessage(z, c, seqno, f, message);
      PushBytes(message, f);
    }

    method PushBytes(message: seq<Byte>, ghost f: Fragment)
      requires Pushed() && IsMessage(z, c, seqno, f, message) && net.pending + |message| <= net.maxsize
      modifies this`seqno, this`fragments, this`messages, net`pending, net`queued, net.buff
      ensures Pushed() && fragments == old(fragments) + [f]
    {
      hide AreMessages, IsMessage, NetBuf.Log, NetBuf.Valid;
      MessagesSnoc(z, c, first, fragments, messages, f, message);
      Associative(before, messages, [message]);
      seqno := (seqno + 1) % 65536;
      var n := net.Push(message);
      fragments, messages := fragments + [f], messages + [message];
    }

    /** The fragment is full: send it with the border towards n, and start a new one. */
    method Flush(n: Advert)
      requires Valid() && BorderKnown(n) && current != [] && Fits(z, n)
      modifies this, net, net.buff
      ensures Valid() && BorderKnown(n) && current == [] && rem >= z.ip + z.lq
      ensures AllMembers(fragments) == old(AllMembers(fragments) + current)
    {
      hide Writer.Pushed, Writer.Roomy, Body, AllMembers, IsBorder, TopDifference;
      FlagRoom();
      var upper := CalculateBorderFlag(lastIp, n.addr);
      FlagIsBorder(upper, lastIp, n.addr);
      ChainedSnoc(fragments, leftBorder, Fragment(current, leftBorder, upper), n);
      AllMembersSnoc(fragments, Fragment(current, leftBorder, upper));
      hide Chained;
      SendFragment(upper);
    }

    lemma FlagRoom()
      requires Roomy()
      ensures z.ip <= 16
    {
    }

    /** Sends the fragment and starts an empty one above its border. */
    method SendFragment(upper: Byte)
      requires Valid() && Chained(fragments + [Fragment(current, leftBorder, upper)], upper)
      modifies this, net, net.buff
      ensures Valid() && current == [] && rem >= z.ip + z.lq && leftBorder == upper
      ensures fragments == old(fragments + [Fragment(current, leftBorder, upper)])
    {
      hide AreMessages, Body, Chained, NetBuf.Log, NetBuf.Valid;
      PushMessage(upper);
      net.Output();
      leftBorder := upper;
      current, buff := [], [];
      BodyEmpty();
      rem := net.BytesLeft() - (12 + z.ip);
    }

    lemma FlagIsBorder(flag: nat, l: seq<Byte>, h: seq<Byte>)
      requires flag == 0 <==> l == h
      requires flag > 0 ==> flag <= 8 * |l| && TopDifference(Value(l), Value(h), flag - 1)
      requires |l| <= 16
      ensures flag < 256 && IsBorder(flag, l, h)
    {
    }

    lemma BodyEmpty()
      ensures Body([]) == []
    {
    }

    lemma ChainedSnoc(fs: seq<Fragment>, left: Byte, f: Fragment, n: Advert)
      requires Chained(fs, left) && f.lower == left && f.members != []
      requires fs != [] ==> IsBorder(left, fs[|fs| - 1].members[|fs[|fs| - 1].members| - 1].addr, f.members[0].addr)
      ensures Chained(fs + [f], f.upper)
    {
      hide IsBorder;
    }

    /** Writes one neighbour. */
    method Add(n: Advert)
      requires Valid() && BorderKnown(n) && Fits(z, n) && (current == [] ==> rem >= z.ip + z.lq)
      modifies this, net, net.buff
      ensures Valid() && current != [] && BorderKnown(n)
      ensures AllMembers(fragments) + current == old(AllMembers(fragments) + current) + [n]
      ensures old(|buff| + z.ip + z.lq <= rem) ==>
        fragments == old(fragments) && rem == old(rem) && |buff| == old(|buff|) + z.ip + z.lq
    {
      hide Writer.Pushed, AllMembers, IsBorder, Chained, Body;
      if |buff| + z.ip + z.lq > rem {
        BodyEmpty();
        Flush(n);
      }
      Append(n);
    }

    method Append(n: Advert)
      requires Valid() && BorderKnown(n) && Fits(z, n) && |buff| + z.ip + z.lq <= rem
      modifies this`buff, this`lastIp, this`current
      ensures Valid() && current != [] && BorderKnown(n) && |buff| == |old(buff)| + z.ip + z.lq
      ensures AllMembers(fragments) + current == old(AllMembers(fragments) + current) + [n]
    {
      hide AreMessages, AllMembers, IsBorder, Chained, Body, NetBuf.Log, NetBuf.Valid;
      BodySnoc(current, n);
      Associative(AllMembers(fragments), current, [n]);
      buff := buff + (n.addr + n.lq);
      lastIp := n.addr;
      current := current + [n];
    }

    lemma BodySnoc(ms: seq<Advert>, n: Advert)
      ensures Body(ms + [n]) == Body(ms) + (n.addr + n.lq)
    {
      assert (ms + [n])[..|ms|] == ms;
    }

    /** A writer that has written nothing yet. */
    ghost predicate Fresh()
      reads this, net, net.buff
    {
      && Roomy() && net.Valid() && seqno == first < 65536 && leftBorder == 0xff
      && buff == [] && current == [] && fragments == [] && messages == []
      && before == net.Log() && rem == net.BytesLeft() - (12 + z.ip)
    }

    /** serialize_lq_tc. What is pending is sent first if the whole TC does not fit behind it. */
    method Serialize(ns: seq<Advert>)
      requires Fresh()
      requires forall k :: 0 <= k < |ns| ==> Fits(z, ns[k])
      modifies this, net, net.buff
      ensures Pushed() && Fragments(ns, fragments) && DeserializeAll(z, messages) == fragments
      ensures var total := 12 + z.ip + EntriesSize(z, |ns|);
        total <= net.maxsize && total <= MAX_REMAINING ==> |fragments| == 1
    {
      Start(ns);
      hide Writer.Valid, Writer.BorderKnown, AllMembers, EntriesSize;
      WriteAll(ns);
      Finish(ns);
    }

    /** Writes all neighbours, into one fragment if they fit. */
    method WriteAll(ns: seq<Advert>)
      requires Valid() && current == [] && fragments == [] && buff == [] && (ns != [] ==> rem >= z.ip + z.lq)
      requires forall k :: 0 <= k < |ns| ==> Fits(z, ns[k])
      modifies this, net, net.buff
      ensures Valid() && AllMembers(fragments) + current == ns
      ensures if ns == [] then current == [] && fragments == [] else current != [] && BorderKnown(current[0])
      ensures old(EntriesSize(z, |ns|) <= rem) ==> fragments == []
    {
      assert EntriesSize(z, 0) == 0 && ns[..|ns|] == ns;
      hide EntriesSize, Fits, Writer.Valid, Writer.BorderKnown, AllMembers;
      ghost var rem0 := rem;
      for k := 0 to |ns|
        invariant Written(ns, k, rem0)
      {
        WriteNext(ns, k, rem0);
      }
    }

    /** The first k neighbours are written; if all fit in rem0 bytes nothing was sent. */
    ghost predicate Written(ns: seq<Advert>, k: nat, rem0: int)
      reads this, net, net.buff
    {
      && k <= |ns| && Valid() && AllMembers(fragments) + current == ns[..k]
      && (if k == 0 then current == [] && fragments == [] && rem == rem0 else current != [] && BorderKnown(current[0]))
      && (EntriesSize(z, |ns|) <= rem0 ==> fragments == [] && rem == rem0 && |buff| == EntriesSize(z, k))
    }

    method WriteNext(ns: seq<Advert>, k: nat, ghost rem0: int)
      requires k < |ns| && Written(ns, k, rem0) && Fits(z, ns[k]) && rem0 >= z.ip + z.lq
      modifies this, net, net.buff
      ensures Written(ns, k + 1, rem0)
    {
      hide Writer.Valid, EntriesSize, Fits, IsBorder, AllMembers;
      EntriesSizeStep(z, k, |ns|);
      assert ns[..k + 1] == ns[..k] + [ns[k]];
      Add(ns[k]);
    }

    /** The last fragment is open above. */
    method Finish(ns: seq<Advert>)
      requires Valid() && AllMembers(fragments) + current == ns
      requires current == [] ==> fragments == []
      requires current != [] ==> BorderKnown(current[0])
      modifies this`seqno, this`fragments, this`messages, net`pending, net`queued, net.buff
      ensures Pushed() && Fragments(ns, fragments) && |fragments| == |old(fragments)| + 1
      ensures DeserializeAll(z, messages) == fragments
    {
      hide AreMessages, AllMembers, IsBorder, NetBuf.Log, NetBuf.Valid, Body;
      ghost var f := Fragment(current, leftBorder, 0xff);
      AllMembersSnoc(fragments, f);
      if fragments != [] {
        assert BorderKnown(current[0]);
        ChainedSnoc(fragments, leftBorder, f, current[0]);
      }
      PushMessage(0xff);
      MessagesDeliver(z, c, first, fragments, messages);
    }

    method Start(ns: seq<Advert>)
      requires Fresh()
      modifies this`rem, net, net.buff
      ensures Valid() && (ns != [] ==> rem >= z.ip + z.lq)
      ensures var total := 12 + z.ip + EntriesSize(z, |ns|);
        total <= net.maxsize && total <= MAX_REMAINING ==> EntriesSize(z, |ns|) <= rem
    {
      hide NetBuf.Log, NetBuf.Valid;
      var expected := 0;
      if net.pending > 0 {
        for k := 0 to |ns|
          invariant expected == EntriesSize(z, k)
        {
          expected := expected + z.ip + z.lq;
        }
      }
      if ns != [] {
        EntriesSizeStep(z, 0, |ns|);
      }
      if rem < expected {
        net.Output();
        rem := net.BytesLeft() - (12 + z.ip);
      }
    }
  }

  lemma {:induction false} EntriesSizeStep(z: Sizes, k: nat, n: nat)
    requires k < n
    ensures EntriesSize(z, 0) == 0 && EntriesSize(z, k + 1) == EntriesSize(z, k) + z.ip + z.lq
    ensures EntriesSize(z, k + 1) <= EntriesSize(z, n)
  {
    if k + 1 < n {
      EntriesSizeStep(z, k, n - 1);
    }
  }

  /** What the receivers of the messages read. */
  function DeserializeAll(z: Sizes, messages: seq<seq<Byte>>): seq<Fragment> {
    if messages == [] then []
    else DeserializeAll(z, messages[..|messages| - 1]) + [Deserialize(z, messages[|messages| - 1])]
  }

  lemma {:induction false} MessagesDeliver(z: Sizes, c: Common, first: nat, fs: seq<Fragment>, messages: seq<seq<Byte>>)
    requires AreMessages(z, c, first, fs, messages) && |c.orig| == z.ip && z.ip > 0
    ensures DeserializeAll(z, messages) == fs
  {
    hide Deserialize, TcBytes;
    if fs != [] {
      var k := |fs| - 1;
      assert AreMessages(z, c, first, fs[..k], messages[..k]);
      MessagesDeliver(z, c, first, fs[..k], messages[..k]);
      assert IsMessage(z, c, (first + k) % 65536, fs[k], messages[k]);
      MessageDelivers(z, c, (first + k) % 65536, fs[k], messages[k]);
    }
  }

  lemma MessageDelivers(z: Sizes, c: Common, seqno: nat, f: Fragment, m: seq<Byte>)
    requires IsMessage(z, c, seqno, f, m) && |c.orig| == z.ip && z.ip > 0
    ensures Deserialize(z, m) == f
  {
    TcRoundTrip(z, c, f, seqno);
  }

  lemma MessagesWellFormed(z: Sizes, c: Common, first: nat, fs: seq<Fragment>, messages: seq<seq<Byte>>)
    requires AreMessages(z, c, first, fs, messages) && |c.orig| == z.ip && z.ip % 4 == 0 && z.lq % 4 == 0
    ensures AllWellFormed(messages, z.ip)
  {
    forall k | 0 <= k < |messages|
      ensures WellFormed(messages[k], z.ip)
    {
      assert IsMessage(z, c, (first + k) % 65536, fs[k], messages[k]);
      TcWellFormed(z, c, fs[k], (first + k) % 65536);
      hide WellFormed;
    }
  }

  /** From one node to another: the TC is serialized, everything is sent, and the receiver
      parses all packets and deserializes what comes after the first `skip` messages, which
      were there before. It reads every neighbour once and in order, with open outermost
      borders and shared inner ones, and the number of the neighbour set. */
  method SendAndReceive(w: Writer, ns: seq<Advert>, skip: nat) returns (received: seq<Fragment>, ansns: seq<nat>)
    requires w.Fresh() && AllWellFormed(w.net.Log(), w.z.ip) && skip == |w.net.Log()|
    requires w.z.ip % 4 == 0 && w.z.lq % 4 == 0 && forall k :: 0 <= k < |ns| ==> Fits(w.z, ns[k])
    modifies w, w.net, w.net.buff
    ensures Fragments(ns, received)
    ensures w.c.ansn < 65536 ==> |ansns| == |received| && forall i :: 0 <= i < |ansns| ==> ansns[i] == w.c.ansn
  {
    assert |w.c.orig| == w.z.ip && w.before == w.net.Log();
    hide Writer.Fresh, Writer.Roomy, NetBuf.Valid, NetBuf.Log, Fragments, Fits;
    w.Serialize(ns);
    MessagesWellFormed(w.z, w.c, w.first, w.fragments, w.messages);
    PartsWellFormed(w.before, w.messages, w.z.ip);
    hide AreMessages, AllWellFormed, DeserializeAll;
    var parsed := ReceiveAll(w.net, w.z.ip);
    assert parsed[skip..] == w.messages;
    received := DeserializeAll(w.z, parsed[skip..]);
    ansns := Ansns(w.z, parsed[skip..]);
    if w.c.ansn < 65536 {
      AnsnsAre(w.z, w.c, w.first, w.fragments, w.messages);
    }
  }

  function Ansns(z: Sizes, messages: seq<seq<Byte>>): seq<nat> {
    seq(|messages|, i requires 0 <= i < |messages| => Ansn(z, messages[i]))
  }

  lemma AnsnsAre(z: Sizes, c: Common, first: nat, fs: seq<Fragment>, messages: seq<seq<Byte>>)
    requires AreMessages(z, c, first, fs, messages) && |c.orig| == z.ip && c.ansn < 65536
    ensures |Ansns(z, messages)| == |fs| && forall i :: 0 <= i < |fs| ==> Ansns(z, messages)[i] == c.ansn
  {
    forall i | 0 <= i < |fs|
      ensures Ansns(z, messages)[i] == c.ansn
    {
      assert IsMessage(z, c, (first + i) % 65536, fs[i], messages[i]);
      HeaderRoundTrip(z, c, fs[i], (first + i) % 65536);
    }
  }
}
