/** Output buffers and packet framing: messages are pushed into a bounded buffer, framed as
    a packet, and split again by the receiver. */
module Framing {
  import opened Words

  type Byte = b: int | 0 <= b < 256

  const HEADERSIZE: nat := 4
  const MAX_REMAINING: int := 1280 - 40 - 8 - 4

  function U16(hi: Byte, lo: Byte): nat {
    hi * 256 + lo
  }

  /** htons */
  function Net16(n: nat): (b: seq<Byte>)
    ensures |b| == 2
  {
    [n / 256 % 256, n % 256]
  }

  lemma Net16RoundTrip(n: nat)
    requires n < 65536
    ensures U16(Net16(n)[0], Net16(n)[1]) == n
  {
  }

  function Concat<T>(ms: seq<seq<T>>): seq<T> {
    if ms == [] then [] else ms[0] + Concat(ms[1..])
  }

  lemma {:induction false} ConcatAppend<T>(ms: seq<seq<T>>, ns: seq<seq<T>>)
    ensures Concat(ms + ns) == Concat(ms) + Concat(ns)
  {
    if ms == [] {
      assert ms + ns == ns;
    } else {
      ConcatAppend(ms[1..], ns);
      assert (ms + ns)[1..] == ms[1..] + ns;
      Associative(ms[0], Concat(ms[1..]), Concat(ns));
    }
  }

  lemma ConcatSnoc<T>(ms: seq<seq<T>>, m: seq<T>)
    ensures Concat(ms + [m]) == Concat(ms) + m
  {
    ConcatAppend(ms, [m]);
    assert Concat([m]) == m + Concat([]);
  }

  /** A message as its sender builds it: long enough, aligned, and announcing its size. */
  predicate WellFormed(m: seq<Byte>, ipsize: nat) {
    && 8 + ipsize <= |m| < 65536 && |m| % 4 == 0
    && U16(m[2], m[3]) == |m|
  }

  /** The receiver's four checks on the bytes that are left. */
  predicate StartsWithMessage(b: seq<Byte>, ipsize: nat) {
    && |b| >= 8 + ipsize
    && var n := U16(b[2], b[3]);
       n >= 8 + ipsize && n % 4 == 0 && n <= |b|
  }

  /** The messages the receiver sees in a packet body. */
  function Split(b: seq<Byte>, ipsize: nat): seq<seq<Byte>>
    decreases |b|
  {
    if !StartsWithMessage(b, ipsize) then []
    else
      var n := U16(b[2], b[3]);
      [b[..n]] + Split(b[n..], ipsize)
  }

  /** Well-formed messages, followed by anything that does not start with one, are split into
      exactly those messages. */
  lemma {:induction false} SplitOfMessages(ms: seq<seq<Byte>>, rest: seq<Byte>, ipsize: nat)
    requires forall i :: 0 <= i < |ms| ==> WellFormed(ms[i], ipsize)
    requires !StartsWithMessage(rest, ipsize)
    ensures Split(Concat(ms) + rest, ipsize) == ms
  {
    if ms != [] {
      SplitOfMessages(ms[1..], rest, ipsize);
      var b := Concat(ms) + rest;
      Associative(ms[0], Concat(ms[1..]), rest);
      assert b[..|ms[0]|] == ms[0] && b[|ms[0]|..] == Concat(ms[1..]) + rest;
    } else {
      assert Concat(ms) + rest == rest;
    }
  }

  /** Any packet body at all is the messages the receiver sees, each well-formed, one after
      the other, and a rest that does not start with a message. */
  lemma {:induction false} SplitIsMaximal(b: seq<Byte>, ipsize: nat)
    ensures forall i :: 0 <= i < |Split(b, ipsize)| ==> WellFormed(Split(b, ipsize)[i], ipsize)
    ensures Concat(Split(b, ipsize)) <= b
    ensures !StartsWithMessage(b[|Concat(Split(b, ipsize))|..], ipsize)
    decreases |b|
  {
    if StartsWithMessage(b, ipsize) {
      var n := U16(b[2], b[3]);
      SplitIsMaximal(b[n..], ipsize);
      var ms := Split(b[n..], ipsize);
      assert Split(b, ipsize)[1..] == ms;
      assert b == b[..n] + b[n..];
      assert b[|Concat(Split(b, ipsize))|..] == b[n..][|Concat(ms)|..];
    }
  }

  /** A stretch of a packet. */
  datatype Stretch = Stretch(at: nat, size: nat)

  function Bytes(b: seq<Byte>, v: Stretch): seq<Byte> {
    if v.at + v.size <= |b| then b[v.at..v.at + v.size] else []
  }

  function AllBytes(b: seq<Byte>, vs: seq<Stretch>): seq<seq<Byte>> {
    seq(|vs|, i requires 0 <= i < |vs| => Bytes(b, vs[i]))
  }

  /** Each stretch starts where the one before it ended, the first one at `from`. */
  predicate Consecutive(vs: seq<Stretch>, from: nat) {
    forall i :: 0 <= i < |vs| ==> vs[i].at == if i == 0 then from else vs[i - 1].at + vs[i - 1].size
  }

  /** The stretches that the receiver visits in the bytes b, which start at `at`. */
  function Walk(b: seq<Byte>, at: nat, ipsize: nat): seq<Stretch>
    decreases |b|
  {
    if !StartsWithMessage(b, ipsize) then []
    else
      var n := U16(b[2], b[3]);
      [Stretch(at, n)] + Walk(b[n..], at + n, ipsize)
  }

  /** The visited stretches follow one another within the bytes and are the messages in them. */
  lemma {:induction false} WalkSplits(packet: seq<Byte>, at: nat, end: nat, ipsize: nat)
    requires at <= end <= |packet|
    ensures Consecutive(Walk(packet[at..end], at, ipsize), at)
    ensures forall i :: 0 <= i < |Walk(packet[at..end], at, ipsize)| ==>
      Ends(Walk(packet[at..end], at, ipsize)[i]) <= end
    ensures AllBytes(packet, Walk(packet[at..end], at, ipsize)) == Split(packet[at..end], ipsize)
    decreases end - at
  {
    FirstStretch(packet, at, end, ipsize);
    hide Walk, Split, Consecutive, AllBytes, U16, Bytes;
    var b := packet[at..end];
    if StartsWithMessage(b, ipsize) {
      hide StartsWithMessage;
      var n := U16(b[2], b[3]);
      WalkSplits(packet, at + n, end, ipsize);
      WalkCons(packet, Stretch(at, n), Walk(packet[at + n..end], at + n, ipsize));
    } else {
      NothingVisited(packet, at);
    }
  }

  lemma FirstStretch(packet: seq<Byte>, at: nat, end: nat, ipsize: nat)
    requires at <= end <= |packet|
    ensures var b := packet[at..end];
      if StartsWithMessage(b, ipsize) then var n := U16(b[2], b[3]);
        && 0 < n && at + n <= end && Bytes(packet, Stretch(at, n)) == packet[at..at + n]
        && Walk(b, at, ipsize) == [Stretch(at, n)] + Walk(packet[at + n..end], at + n, ipsize)
        && Split(b, ipsize) == [packet[at..at + n]] + Split(packet[at + n..end], ipsize)
      else Walk(b, at, ipsize) == [] && Split(b, ipsize) == []
  {
    var b := packet[at..end];
    if StartsWithMessage(b, ipsize) {
      var n := U16(b[2], b[3]);
      assert b[n..] == packet[at + n..end] && b[..n] == packet[at..at + n];
    }
  }

  function Ends(v: Stretch): nat {
    v.at + v.size
  }

  lemma WalkCons(packet: seq<Byte>, v: Stretch, vs: seq<Stretch>)
    requires Consecutive(vs, Ends(v))
    ensures Consecutive([v] + vs, v.at) && AllBytes(packet, [v] + vs) == [Bytes(packet, v)] + AllBytes(packet, vs)
    ensures forall i :: 0 <= i < |[v] + vs| ==> ([v] + vs)[i] == if i == 0 then v else vs[i - 1]
  {
    assert forall i :: 0 < i < |[v] + vs| ==> ([v] + vs)[i] == vs[i - 1];
  }

  lemma Associative<T>(a: seq<T>, b: seq<T>, c: seq<T>)
    ensures (a + b) + c == a + (b + c)
  {
  }

  /** The number of bytes after the header of a datagram of cc bytes, as a 32-bit number. */
  function Count(cc: nat): nat {
    (cc - HEADERSIZE) % 0x1_0000_0000
  }

  lemma CountIs(cc: nat)
    requires cc < 65536
    ensures Count(cc) == if cc >= HEADERSIZE then cc - HEADERSIZE else 0x1_0000_0000 + cc - HEADERSIZE
  {
  }

  /** The stretches visited in a datagram of cc bytes at the start of memory. */
  function Visited(memory: seq<Byte>, cc: nat, ipsize: nat): seq<Stretch>
    requires cc < 65536 && |memory| >= HEADERSIZE + Count(cc)
  {
    CountIs(cc);
    if Count(cc) < 4 || U16(memory[0], memory[1]) != cc then []
    else Walk(memory[HEADERSIZE..HEADERSIZE + Count(cc)], HEADERSIZE, ipsize)
  }

  /** parse_packet: the message walk over a datagram of cc bytes, which other bytes follow in
      memory. A datagram whose announced length is wrong is dropped. */
  method ParsePacket(memory: seq<Byte>, cc: nat, ipsize: nat) returns (visited: seq<Stretch>)
    requires 0 < cc < 65536 && |memory| >= HEADERSIZE + Count(cc)
    ensures visited == Visited(memory, cc, ipsize) && Consecutive(visited, HEADERSIZE)
    ensures AllBytes(memory, visited) == if Count(cc) >= 4 && U16(memory[0], memory[1]) == cc
      then Split(memory[HEADERSIZE..HEADERSIZE + Count(cc)], ipsize) else []
    ensures cc >= HEADERSIZE ==> forall i :: 0 <= i < |visited| ==> Ends(visited[i]) <= cc
  {
    CountIs(cc);
    hide Split, Consecutive, AllBytes, Walk, Count;
    visited := [];
    NothingVisited(memory, HEADERSIZE);
    var count := Count(cc);
    if count < 4 {
      return;
    }
    if U16(memory[0], memory[1]) != cc {
      return;
    }
    WalkSplits(memory, HEADERSIZE, HEADERSIZE + count, ipsize);
    visited := WalkMessages(memory, count, ipsize);
  }

  /** The loop of parse_packet. */
  method WalkMessages(memory: seq<Byte>, size: nat, ipsize: nat) returns (visited: seq<Stretch>)
    requires |memory| >= HEADERSIZE + size
    ensures visited == Walk(memory[HEADERSIZE..HEADERSIZE + size], HEADERSIZE, ipsize)
  {
    hide Walk, U16;
    visited := [];
    var count, m := size, HEADERSIZE;
    ghost var end := HEADERSIZE + size;
    ghost var all := Walk(memory[HEADERSIZE..end], HEADERSIZE, ipsize);
    while count > 0
      invariant count >= 0 && HEADERSIZE <= m && m + count == end
      invariant all == visited + Walk(memory[m..end], m, ipsize)
    {
      NextStarts(memory, m, end, ipsize);
      if count < 8 + ipsize {
        break;
      }
      var msgsize := U16(memory[m + 2], memory[m + 3]);
      if msgsize < 8 + ipsize {
        break;
      }
      if msgsize % 4 != 0 {
        break;
      }
      if msgsize > count {
        break;
      }
      count := count - msgsize;
      Associative(visited, [Stretch(m, msgsize)], Walk(memory[m + msgsize..end], m + msgsize, ipsize));
      visited := visited + [Stretch(m, msgsize)];
      m := m + msgsize;
    }
    NextStarts(memory, m, end, ipsize);
    assert visited + [] == visited;
  }

  lemma NothingVisited(memory: seq<Byte>, at: nat)
    ensures Consecutive([], at) && AllBytes(memory, []) == []
  {
  }

  /** The four checks of the walk at place m, and what it does next. */
  lemma NextStarts(memory: seq<Byte>, m: nat, end: nat, ipsize: nat)
    requires m <= end <= |memory|
    ensures end - m >= 8 + ipsize ==> m + 3 < |memory|
    ensures var n := if end - m >= 8 + ipsize then U16(memory[m + 2], memory[m + 3]) else 0;
      if n >= 8 + ipsize && n % 4 == 0 && n <= end - m
      then Walk(memory[m..end], m, ipsize) == [Stretch(m, n)] + Walk(memory[m + n..end], m + n, ipsize)
      else Walk(memory[m..end], m, ipsize) == []
  {
    FirstStretch(memory, m, end, ipsize);
    hide Walk, Split;
  }

  /** A datagram of two bytes that announces its own length: the 32-bit count wraps around, and
      the walk reads on in the bytes behind the datagram. */
  lemma ShortDatagramIsLeft(memory: seq<Byte>)
    requires |memory| >= HEADERSIZE + Count(2) && memory[..8] == [0, 2, 0, 0, 0, 0, 0, 12]
    ensures var visited := Visited(memory, 2, 4);
      visited != [] && visited[0] == Stretch(4, 12) && Ends(visited[0]) > 2
  {
    CountIs(2);
    NextStarts(memory, HEADERSIZE, HEADERSIZE + Count(2), 4);
    assert forall i :: 0 <= i < 8 ==> memory[i] == memory[..8][i];
  }

  ghost predicate StaysInside(memory: seq<Byte>, cc: nat, ipsize: nat)
    requires cc < 65536 && |memory| >= HEADERSIZE + Count(cc)
  {
    forall i :: 0 <= i < |Visited(memory, cc, ipsize)| ==> Ends(Visited(memory, cc, ipsize)[i]) <= cc
  }

  /** The bytes behind a datagram can make the length field that the receiver reads its own
      length. A datagram of one byte holds only half of that field. */
  predicate MayAnnounceItself(d: seq<Byte>)
    requires 0 < |d|
  {
    if |d| == 1 then d[0] == 0 else U16(d[0], d[1]) == |d|
  }

  ghost predicate InMemory(d: seq<Byte>, memory: seq<Byte>)
    requires |d| < 65536
  {
    |memory| >= HEADERSIZE + Count(|d|) && d <= memory
  }

  /** Whatever follows a datagram in memory, the walk stays inside it: exactly if it holds
      a whole header or cannot announce its own length. */
  lemma InsideIff(d: seq<Byte>, ipsize: nat)
    requires 0 < |d| < 65536 && ipsize % 4 == 0 && ipsize <= 16
    ensures (forall memory :: InMemory(d, memory) ==> StaysInside(memory, |d|, ipsize)) <==>
            |d| >= HEADERSIZE || !MayAnnounceItself(d)
  {
    CountIs(|d|);
    hide Walk, Count, Consecutive, AllBytes, Split;
    if |d| >= HEADERSIZE || !MayAnnounceItself(d) {
      forall memory | InMemory(d, memory)
        ensures StaysInside(memory, |d|, ipsize)
      {
        if |d| >= HEADERSIZE {
          WalkSplits(memory, HEADERSIZE, HEADERSIZE + Count(|d|), ipsize);
        } else {
          assert forall i :: 0 <= i < |d| ==> memory[i] == d[i];
        }
      }
    } else {
      var memory := Leaves(d, ipsize);
    }
  }

  lemma Leaves(d: seq<Byte>, ipsize: nat) returns (memory: seq<Byte>)
    requires 0 < |d| < HEADERSIZE && MayAnnounceItself(d) && ipsize % 4 == 0 && ipsize <= 16
    ensures InMemory(d, memory) && !StaysInside(memory, |d|, ipsize)
  {
    CountIs(|d|);
    hide Walk;
    var n := HEADERSIZE + Count(|d|);
    var header := [d[0], if |d| == 1 then 1 else d[1], if |d| == 3 then d[2] else 0, 0];
    memory := header + [0, 0, 0, 8 + ipsize] + seq(n, i => 0);
    assert d <= header;
    NextStarts(memory, HEADERSIZE, n, ipsize);
    assert Visited(memory, |d|, ipsize)[0] == Stretch(HEADERSIZE, 8 + ipsize);
  }

  /** A packet that announces its own length and carries the given body. */
  predicate IsPacket(p: seq<Byte>, body: seq<Byte>) {
    |p| == HEADERSIZE + |body| && U16(p[0], p[1]) == |p| && p[HEADERSIZE..] == body
  }

  /** Each packet carries the messages of one batch, whole and in order. */
  ghost predicate ArePackets(sent: seq<seq<Byte>>, batches: seq<seq<seq<Byte>>>) {
    |sent| == |batches| && forall i :: 0 <= i < |sent| ==> IsPacket(sent[i], Concat(batches[i]))
  }

  lemma PacketsSnoc(sent: seq<seq<Byte>>, batches: seq<seq<seq<Byte>>>, p: seq<Byte>, batch: seq<seq<Byte>>)
    requires ArePackets(sent, batches) && IsPacket(p, Concat(batch))
    ensures ArePackets(sent + [p], batches + [batch])
  {
    hide IsPacket;
  }

  /** The number in the header of a packet. */
  function PacketNumber(p: seq<Byte>): (n: nat)
    requires |p| >= HEADERSIZE
    ensures n < 65536
  {
    U16(p[2], p[3])
  }

  /** The packets are numbered one after the other, in 16 bits. */
  ghost predicate Numbered(sent: seq<seq<Byte>>, first: nat) {
    forall i :: 0 <= i < |sent| ==> |sent[i]| >= HEADERSIZE && PacketNumber(sent[i]) == Word16(first + i)
  }

  lemma NumberedSnoc(sent: seq<seq<Byte>>, first: nat, p: seq<Byte>)
    requires Numbered(sent, first) && |p| >= HEADERSIZE && PacketNumber(p) == Word16(first + |sent|)
    ensures Numbered(sent + [p], first) && Word16(Word16(first + |sent|) + 1) == Word16(first + |sent| + 1)
  {
    hide PacketNumber;
  }

  /** The output buffer of an interface. The first four bytes of `buff` are for the packet
      header; `sent` is what went out on the interface. The messages that are pending, and
      those in each packet, are ghosts. */
  class NetBuf {
    const buff: array<Byte>
    const maxsize: nat
    var pending: nat
    var seqnum: nat
    var sent: seq<seq<Byte>>

    ghost var queued: seq<seq<Byte>>
    ghost var batches: seq<seq<seq<Byte>>>
    /** The number of the first packet. */
    ghost const first: nat

    ghost predicate Valid()
      reads this, buff
    {
      && buff.Length == HEADERSIZE + maxsize && pending <= maxsize && HEADERSIZE + maxsize < 65536
      && buff[HEADERSIZE..HEADERSIZE + pending] == Concat(queued) && ArePackets(sent, batches)
      && Numbered(sent, first) && seqnum == Word16(first + |sent|)
    }

    /** Every message that was ever accepted: those that were sent, then those pending. */
    ghost function Log(): seq<seq<Byte>>
      reads this`queued, this`batches
    {
      Concat(batches) + queued
    }

    constructor (mtu: nat, number: nat)
      requires HEADERSIZE <= mtu < 65536 && number < 65536
      ensures Valid() && fresh(buff) && maxsize == mtu - HEADERSIZE && pending == 0
      ensures sent == [] && Log() == [] && first == number
    {
      buff := new Byte[mtu];
      maxsize := mtu - HEADERSIZE;
      pending := 0;
      seqnum, first := number, number;
      sent := [];
      queued, batches := [], [];
    }

    /** Appends a whole message or nothing. */
    method Push(data: seq<Byte>) returns (n: nat)
      requires Valid()
      modifies this`pending, this`queued, buff
      ensures Valid()
      ensures n == if old(pending) + |data| > maxsize then 0 else |data|
      ensures pending == old(pending) + n
      ensures queued == if old(pending) + |data| > maxsize then old(queued) else old(queued) + [data]
      ensures Log() == if old(pending) + |data| > maxsize then old(Log()) else old(Log()) + [data]
    {
      hide ArePackets;
      if pending + |data| > maxsize {
        return 0;
      }
      forall i | 0 <= i < |data| {
        buff[pending + HEADERSIZE + i] := data[i];
      }
      ConcatSnoc(queued, data);
      assert buff[HEADERSIZE..HEADERSIZE + pending + |data|] == old(buff[HEADERSIZE..HEADERSIZE + pending]) + data;
      hide Concat;
      Associative(Concat(batches), queued, [data]);
      pending := pending + |data|;
      queued := queued + [data];
      n := |data|;
    }

    function BytesLeft(): int
      reads this
    {
      var remaining := maxsize - pending;
      if remaining > MAX_REMAINING then MAX_REMAINING else remaining
    }

    /** Sends the pending messages as one packet that announces its own length. */
    method Output()
      requires Valid()
      modifies this`pending, this`sent, this`seqnum, this`queued, this`batches, buff
      ensures Valid() && pending == 0 && Log() == old(Log())
      ensures old(pending) == 0 ==> sent == old(sent) && queued == old(queued)
      ensures old(pending) > 0 ==> queued == [] && |sent| == |old(sent)| + 1 && sent[..|old(sent)|] == old(sent)
      ensures old(pending) > 0 ==> IsPacket(sent[|old(sent)|], Concat(old(queued)))
    {
      hide IsPacket, PacketNumber, ArePackets, Numbered, Concat, Word16;
      if pending == 0 {
        return;
      }
      var packet := MakePacket();
      PacketsSnoc(sent, batches, packet, queued);
      NumberedSnoc(sent, first, packet);
      ConcatSnoc(batches, queued);
      ConcatNothing();
      sent := sent + [packet];
      pending := 0;
      batches := batches + [queued];
      queued := [];
    }

    /** Writes the packet header in front of what is pending. */
    method MakePacket() returns (packet: seq<Byte>)
      requires Valid() && pending > 0
      modifies this`seqnum, buff
      ensures |packet| >= HEADERSIZE && IsPacket(packet, Concat(queued)) && PacketNumber(packet) == old(seqnum)
      ensures seqnum == Word16(old(seqnum) + 1)
      ensures buff[HEADERSIZE..HEADERSIZE + pending] == old(buff[HEADERSIZE..HEADERSIZE + pending])
    {
      hide Net16, U16, ArePackets, Numbered, Concat;
      var total := pending + HEADERSIZE;
      Net16RoundTrip(total);
      Net16RoundTrip(seqnum);
      buff[2], buff[3] := Net16(seqnum)[0], Net16(seqnum)[1];
      seqnum := (seqnum + 1) % 65536;
      buff[0], buff[1] := Net16(total)[0], Net16(total)[1];
      packet := buff[..total];
      assert packet[HEADERSIZE..] == Concat(queued);
    }
  }

  lemma ConcatNothing()
    ensures Concat<Byte>([]) == []
  {
  }

  ghost predicate AllWellFormed(ms: seq<seq<Byte>>, ipsize: nat) {
    forall i :: 0 <= i < |ms| ==> WellFormed(ms[i], ipsize)
  }

  /** Pushes messages until one is refused. */
  method PushAll(buf: NetBuf, msgs: seq<seq<Byte>>, ipsize: nat) returns (accepted: nat)
    requires buf.Valid() && AllWellFormed(msgs, ipsize)
    modifies buf`pending, buf`queued, buf.buff
    ensures buf.Valid() && accepted <= |msgs| && buf.Log() == old(buf.Log()) + msgs[..accepted]
    ensures buf.queued == old(buf.queued) + msgs[..accepted]
    ensures accepted < |msgs| ==> |Concat(buf.queued + [msgs[accepted]])| > buf.maxsize
  {
    hide NetBuf.Log, Concat, ArePackets;
    accepted := 0;
    assert old(buf.queued) + [] == old(buf.queued) && old(buf.Log()) + [] == old(buf.Log());
    while accepted < |msgs|
      invariant buf.Valid() && accepted <= |msgs| && buf.Log() == old(buf.Log()) + msgs[..accepted]
      invariant buf.queued == old(buf.queued) + msgs[..accepted]
    {
      assert msgs[..accepted + 1] == msgs[..accepted] + [msgs[accepted]];
      Associative(old(buf.queued), msgs[..accepted], [msgs[accepted]]);
      Associative(old(buf.Log()), msgs[..accepted], [msgs[accepted]]);
      ConcatSnoc(buf.queued, msgs[accepted]);
      var n := buf.Push(msgs[accepted]);
      if n == 0 {
        break;
      }
      accepted := accepted + 1;
    }
  }

  /** Sending the buffer and parsing all packets gives back exactly the accepted messages,
      those from before included, in order. */
  method SendAndParse(buf: NetBuf, msgs: seq<seq<Byte>>, ipsize: nat) returns (accepted: nat, parsed: seq<seq<Byte>>)
    requires buf.Valid() && AllWellFormed(msgs, ipsize) && AllWellFormed(buf.Log(), ipsize)
    modifies buf, buf.buff
    ensures buf.Valid() && accepted <= |msgs| && parsed == old(buf.Log()) + msgs[..accepted]
    ensures accepted < |msgs| ==> |Concat(old(buf.queued) + msgs[..accepted + 1])| > buf.maxsize
  {
    hide NetBuf.Valid, NetBuf.Log, WellFormed, Concat;
    accepted := PushAll(buf, msgs, ipsize);
    if accepted < |msgs| {
      assert msgs[..accepted + 1] == msgs[..accepted] + [msgs[accepted]];
      Associative(old(buf.queued), msgs[..accepted], [msgs[accepted]]);
    }
    parsed := ReceiveAll(buf, ipsize);
  }

  /** Everything that is in a buffer is sent, and all its packets are parsed: the messages come
      back whole and in order, however they were spread over packets. */
  method ReceiveAll(buf: NetBuf, ipsize: nat) returns (parsed: seq<seq<Byte>>)
    requires buf.Valid() && AllWellFormed(buf.Log(), ipsize)
    modifies buf, buf.buff
    ensures buf.Valid() && buf.pending == 0 && parsed == buf.Log() == old(buf.Log())
  {
    buf.Output();
    NothingQueued(buf, ipsize);
    parsed := ParseAll(buf.sent, buf.batches, ipsize);
  }

  lemma NothingQueued(buf: NetBuf, ipsize: nat)
    requires buf.Valid() && buf.pending == 0 && AllWellFormed(buf.Log(), ipsize)
    ensures buf.queued == [] && buf.Log() == Concat(buf.batches)
    ensures ArePackets(buf.sent, buf.batches) && AllWellFormed(Concat(buf.batches), ipsize)
  {
    hide ArePackets, WellFormed;
    PartsWellFormed(Concat(buf.batches), buf.queued, ipsize);
    MessagesHaveBytes(buf.queued, ipsize);
  }

  lemma PartsWellFormed(a: seq<seq<Byte>>, b: seq<seq<Byte>>, ipsize: nat)
    ensures AllWellFormed(a + b, ipsize) <==> AllWellFormed(a, ipsize) && AllWellFormed(b, ipsize)
  {
    hide WellFormed;
    var c := a + b;
    assert forall i :: 0 <= i < |a| ==> c[i] == a[i];
    assert forall i :: 0 <= i < |b| ==> c[|a| + i] == b[i];
  }

  lemma MessagesHaveBytes(ms: seq<seq<Byte>>, ipsize: nat)
    requires AllWellFormed(ms, ipsize)
    ensures ms != [] ==> Concat(ms) != []
  {
    if ms != [] {
      assert WellFormed(ms[0], ipsize);
    }
  }

  /** The receiver of all packets of an interface. */
  method ParseAll(sent: seq<seq<Byte>>, ghost batches: seq<seq<seq<Byte>>>, ipsize: nat)
      returns (parsed: seq<seq<Byte>>)
    requires ArePackets(sent, batches) && AllWellFormed(Concat(batches), ipsize)
    ensures parsed == Concat(batches)
  {
    parsed := [];
    assert batches[..0] == [] && Concat(batches[..0]) == [];
    hide IsPacket, WellFormed, Concat;
    for i := 0 to |sent|
      invariant parsed == Concat(batches[..i])
    {
      assert batches[..i + 1] == batches[..i] + [batches[i]];
      ConcatSnoc(batches[..i], batches[i]);
      BatchWellFormed(batches, i, ipsize);
      var ms := ParseBatch(sent[i], batches[i], ipsize);
      parsed := parsed + ms;
    }
    assert batches[..|sent|] == batches;
  }

  lemma {:induction false} BatchWellFormed(batches: seq<seq<seq<Byte>>>, i: nat, ipsize: nat)
    requires i < |batches| && AllWellFormed(Concat(batches), ipsize)
    ensures AllWellFormed(batches[i], ipsize)
  {
    hide AllWellFormed;
    PartsWellFormed(batches[0], Concat(batches[1..]), ipsize);
    if i > 0 {
      BatchWellFormed(batches[1..], i - 1, ipsize);
    }
  }

  /** Whole well-formed messages in a packet are what its receiver sees. */
  method ParseBatch(packet: seq<Byte>, ghost batch: seq<seq<Byte>>, ipsize: nat) returns (parsed: seq<seq<Byte>>)
    requires IsPacket(packet, Concat(batch)) && AllWellFormed(batch, ipsize)
    ensures parsed == batch
  {
    SplitOfMessages(batch, [], ipsize);
    assert Concat(batch) + [] == Concat(batch);
    hide Split, Concat, WellFormed;
    parsed := ParseWhole(packet, ipsize);
  }

  /** The messages of a whole datagram. */
  method ParseWhole(packet: seq<Byte>, ipsize: nat) returns (parsed: seq<seq<Byte>>)
    requires HEADERSIZE <= |packet| && U16(packet[0], packet[1]) == |packet|
    ensures parsed == Split(packet[HEADERSIZE..], ipsize)
  {
    CountIs(|packet|);
    ShortSplit(packet[HEADERSIZE..], ipsize);
    hide Count, Split, AllBytes, Visited, Consecutive;
    assert packet[HEADERSIZE..HEADERSIZE + Count(|packet|)] == packet[HEADERSIZE..];
    var visited := ParsePacket(packet, |packet|, ipsize);
    parsed := AllBytes(packet, visited);
  }

  lemma ShortSplit(b: seq<Byte>, ipsize: nat)
    ensures |b| < 4 ==> Split(b, ipsize) == []
  {
  }
}
