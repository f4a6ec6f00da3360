/** Duplicate suppression: a sliding 32-bit window over wrapping 16-bit message sequence
    numbers stands in for the set of messages seen from one originator. */
module DuplicateSet {
  import opened Words
  import opened Topology

  const DUP_MAX_TOO_LOW: nat := 16
  const SEQNO_RANGE: int := 0x1_0000
  const WINDOW: nat := 32

  /** `window` (the field `array`) is a 32-bit word whose bit i stands for the number seqnr - i. */
  datatype Entry = Entry(seqnr: nat, tooLow: nat, window: nat)

  function SeqnoDiff(seqno1: nat, seqno2: nat): int {
    var diff := seqno1 - seqno2;
    if diff > 0x8000 then diff - 0x1_0000 else if diff < -0x8000 then diff + 0x1_0000 else diff
  }

  function Create(seqnr: nat): Entry {
    Entry(seqnr, 0, 0)
  }

  /** What a call for a later message of the originator does to its entry. */
  datatype Outcome = Restarted | Accepted | Blocked

  function Receive(e: Entry, n: nat): (Entry, Outcome) {
    var diff := SeqnoDiff(n, e.seqnr);
    if diff < -31 then
      if e.tooLow + 1 > DUP_MAX_TOO_LOW then (Entry(n, 0, 1), Restarted)
      else (e.(tooLow := e.tooLow + 1), Blocked)
    else if diff <= 0 then
      if Bit(e.window, -diff) then (e.(tooLow := 0), Blocked)
      else (Entry(e.seqnr, 0, OrBit(e.window, -diff)), Accepted)
    else if diff < 32 then (Entry(n, 0, OrBit(ShiftLeft(e.window, diff, WINDOW), 0)), Accepted)
    else (Entry(n, 0, OrBit(0, 0)), Accepted)
  }

  /** olsr_cleanup_duplicates: two more too-old numbers and the next one is a restart. */
  function Cleanup(e: Entry): Entry {
    e.(tooLow := DUP_MAX_TOO_LOW - 2)
  }

  /** Numbers that are less than half the range apart keep their distance. */
  lemma DiffIsDistance(p: int, h: int)
    requires -0x8000 < p - h < 0x8000
    ensures SeqnoDiff(p % SEQNO_RANGE, h % SEQNO_RANGE) == p - h
  {
  }

  /** As long as the sender stays within half the range of the newest number, positions are
      the sender's own unbounded numbers. */
  lemma PositionIsTrue(t: Track, p: int)
    requires Inv(t) && -0x8000 < p - t.head < 0x8000
    ensures Position(t, p % SEQNO_RANGE) == p
  {
    DiffIsDistance(p, t.head);
  }

  lemma DiffRange(n: nat, m: nat)
    requires n < SEQNO_RANGE && m < SEQNO_RANGE
    ensures -0x8000 <= SeqnoDiff(n, m) <= 0x8000 && (m + SeqnoDiff(n, m)) % SEQNO_RANGE == n
  {
  }

  datatype Event = Message(seqno: nat) | CleanupCall

  /** An entry together with what it stands for: the unbounded position of its newest
      number, and the positions accepted since the entry was created or last restarted.
      log[0] is the position that created or restarted the epoch. */
  datatype Track = Track(e: Entry, head: int, log: seq<int>, restarted: bool)

  function Start(n: nat): Track {
    Track(Create(n), n, [n], false)
  }

  /** The position of number n, read relative to the newest one. */
  function Position(t: Track, n: nat): int {
    t.head + SeqnoDiff(n, t.e.seqnr)
  }

  function Step(t: Track, ev: Event): Track {
    match ev
    case CleanupCall => t.(e := Cleanup(t.e))
    case Message(n) =>
      var (e', outcome) := Receive(t.e, n);
      var p := Position(t, n);
      match outcome
      case Blocked => t.(e := e')
      case Restarted => Track(e', p, [p], true)
      case Accepted => Track(e', if p > t.head then p else t.head, t.log + [p], t.restarted)
  }

  function Replay(n: nat, evs: seq<Event>): Track {
    if evs == [] then Start(n) else Step(Replay(n, evs[..|evs| - 1]), evs[|evs| - 1])
  }

  /** The positions the window has recorded: all of the epoch, except that the number that
      created the entry is not recorded. */
  function Recorded(t: Track): seq<int> {
    if t.restarted || t.log == [] then t.log else t.log[1..]
  }

  ghost predicate Distinct(s: seq<int>) {
    forall i, j :: 0 <= i < j < |s| ==> s[i] != s[j]
  }

  /** The window holds exactly the recorded positions that are less than 32 old, and no
      position is recorded twice. */
  ghost predicate Inv(t: Track) {
    && t.e.seqnr < SEQNO_RANGE && t.head % SEQNO_RANGE == t.e.seqnr
    && t.e.tooLow <= DUP_MAX_TOO_LOW
    && t.log != []
    && (forall i :: 0 <= i < |t.log| ==> t.log[i] <= t.head)
    && Distinct(Recorded(t))
    && (forall i :: 0 <= i < WINDOW ==> (Bit(t.e.window, i) <==> t.head - i in Recorded(t)))
  }

  lemma StartInv(n: nat)
    requires n < SEQNO_RANGE
    ensures Inv(Start(n))
  {
    forall i | 0 <= i < WINDOW ensures !Bit(0, i) { ZeroBits(i); }
  }

  /** The window after a newer number: shifted, or cleared when the jump leaves it. */
  lemma MovedWindow(a: nat, diff: nat, i: nat)
    requires diff > 0 && i < WINDOW
    ensures var a' := if diff < 32 then OrBit(ShiftLeft(a, diff, WINDOW), 0) else OrBit(0, 0);
      Bit(a', i) <==> i == 0 || (diff <= i && Bit(a, i - diff))
  {
    ShiftLeftBits(a, diff, WINDOW, i);
    OrBitBits(ShiftLeft(a, diff, WINDOW), 0, i);
    OrBitBits(0, 0, i);
    ZeroBits(i);
  }

  lemma OneBits(i: nat)
    ensures Bit(1, i) <==> i == 0
  {
    OrBitBits(0, 0, i);
    ZeroBits(i);
  }

  lemma StepKeeps(t: Track, ev: Event)
    requires Inv(t) && (ev.Message? ==> ev.seqno < SEQNO_RANGE)
    ensures Inv(Step(t, ev))
  {
    hide Bit, OrBit, ShiftLeft;
    if ev.Message? {
      DiffRange(ev.seqno, t.e.seqnr);
      match Receive(t.e, ev.seqno).1
      case Blocked =>
        assert Recorded(Step(t, ev)) == Recorded(t);
      case Restarted =>
        forall i | 0 <= i < WINDOW
          ensures Bit(1, i) <==> i == 0
        {
          OneBits(i);
        }
      case Accepted => AcceptKeeps(t, ev.seqno);
    }
  }

  lemma AcceptKeeps(t: Track, n: nat)
    requires Inv(t) && n < SEQNO_RANGE && Receive(t.e, n).1.Accepted?
    ensures Inv(Step(t, Message(n)))
  {
    hide Bit, Receive, Step, Distinct;
    var p, t' := Position(t, n), Step(t, Message(n));
    AcceptHead(t, n);
    RecordedGrows(t, t', p);
    forall i | 0 <= i < WINDOW
      ensures Bit(t'.e.window, i) <==> t'.head - i in Recorded(t')
    {
      AcceptBit(t, n, i);
      InSnoc(Recorded(t), p, t'.head - i);
    }
    AcceptedIsNew(t, n);
    DistinctSnoc(Recorded(t), p);
  }

  lemma AcceptHead(t: Track, n: nat)
    requires Inv(t) && n < SEQNO_RANGE && Receive(t.e, n).1.Accepted?
    ensures var t' := Step(t, Message(n));
      && t'.log == t.log + [Position(t, n)] && t'.restarted == t.restarted && t'.e.tooLow == 0
      && t'.e.seqnr < SEQNO_RANGE && t'.head % SEQNO_RANGE == t'.e.seqnr
      && t.head <= t'.head && Position(t, n) <= t'.head
  {
    hide Bit, OrBit, ShiftLeft;
    DiffRange(n, t.e.seqnr);
  }

  lemma InSnoc(s: seq<int>, p: int, x: int)
    ensures x in s + [p] <==> x in s || x == p
  {
  }

  lemma DistinctSnoc(s: seq<int>, p: int)
    requires Distinct(s) && p !in s
    ensures Distinct(s + [p])
  {
  }

  /** What accepting number n does to bit i of the window. */
  lemma AcceptBit(t: Track, n: nat, i: nat)
    requires Inv(t) && n < SEQNO_RANGE && Receive(t.e, n).1.Accepted? && i < WINDOW
    ensures var t' := Step(t, Message(n));
      Bit(t'.e.window, i) <==> t'.head - i in Recorded(t) || t'.head - i == Position(t, n)
  {
    RecordedBelow(t);
    var diff := SeqnoDiff(n, t.e.seqnr);
    if diff > 0 {
      MovedWindow(t.e.window, diff, i);
    } else {
      OrBitBits(t.e.window, -diff, i);
    }
  }

  lemma RecordedGrows(t: Track, t': Track, p: int)
    requires t.log != [] && t'.log == t.log + [p] && t'.restarted == t.restarted
    ensures Recorded(t') == Recorded(t) + [p]
  {
  }

  /** A position that is accepted without a restart was not recorded before. */
  lemma AcceptedIsNew(t: Track, n: nat)
    requires Inv(t) && n < SEQNO_RANGE && Receive(t.e, n).1.Accepted?
    ensures Position(t, n) !in Recorded(t)
  {
    RecordedBelow(t);
    var diff := SeqnoDiff(n, t.e.seqnr);
    if diff <= 0 {
      assert Bit(t.e.window, -diff) <==> t.head - (-diff) in Recorded(t);
    }
  }

  lemma RecordedBelow(t: Track)
    requires Inv(t)
    ensures forall p :: p in Recorded(t) ==> p <= t.head
  {
    forall p | p in Recorded(t)
      ensures p in t.log
    {
    }
  }

  /** A message is blocked exactly when it is too old for the window or already recorded. */
  lemma BlockedIff(t: Track, n: nat)
    requires Inv(t) && n < SEQNO_RANGE
    ensures Receive(t.e, n).1.Blocked? <==>
      || (Position(t, n) < t.head - 31 && t.e.tooLow < DUP_MAX_TOO_LOW)
      || (Position(t, n) >= t.head - 31 && Position(t, n) in Recorded(t))
  {
    RecordedBelow(t);
    var p := Position(t, n);
    if t.head - 31 <= p <= t.head {
      assert Bit(t.e.window, t.head - p) <==> t.head - (t.head - p) in Recorded(t);
    }
  }

  lemma {:induction false} ReplayInv(n: nat, evs: seq<Event>)
    requires n < SEQNO_RANGE && forall i :: 0 <= i < |evs| && evs[i].Message? ==> evs[i].seqno < SEQNO_RANGE
    ensures Inv(Replay(n, evs))
  {
    if evs == [] {
      StartInv(n);
    } else {
      ReplayInv(n, evs[..|evs| - 1]);
      StepKeeps(Replay(n, evs[..|evs| - 1]), evs[|evs| - 1]);
    }
  }

  /** In every run, since creation or the last restart, no position is accepted twice, apart
      from one extra acceptance of the number that created the entry. */
  lemma AcceptedOnce(n: nat, evs: seq<Event>)
    requires n < SEQNO_RANGE && forall i :: 0 <= i < |evs| && evs[i].Message? ==> evs[i].seqno < SEQNO_RANGE
    ensures var t := Replay(n, evs);
      && (forall i, j :: 0 <= i < j < |t.log| && t.log[i] == t.log[j] ==> i == 0 && !t.restarted)
      && (forall j, k :: 0 < j < k < |t.log| ==> t.log[j] != t.log[k])
      && t.e.tooLow <= DUP_MAX_TOO_LOW
  {
    ReplayInv(n, evs);
    var t := Replay(n, evs);
    forall i, j | 0 < i < j < |t.log|
      ensures t.log[i] != t.log[j]
    {
      assert !t.restarted ==> Recorded(t)[i - 1] == t.log[i] && Recorded(t)[j - 1] == t.log[j];
    }
  }

  /** The extra acceptance is real, for every number; the third copy is blocked. */
  lemma CreatingNumberTwice(n: nat)
    requires n < SEQNO_RANGE
    ensures Receive(Create(n), n).1.Accepted?
    ensures Receive(Receive(Create(n), n).0, n).1.Blocked?
  {
    OrBitBits(0, 0, 0);
  }

  function Feed(e: Entry, ns: seq<nat>): (Entry, seq<Outcome>)
    decreases ns
  {
    if ns == [] then (e, [])
    else
      var (e', o) := Receive(e, ns[0]);
      var (e'', os) := Feed(e', ns[1..]);
      (e'', [o] + os)
  }

  /** Consecutive too-old numbers are blocked until the counter has passed 16; the one that
      takes it there restarts the entry. From a fresh counter that is the 17th. */
  lemma {:induction false} TooOldRestarts(e: Entry, ns: seq<nat>)
    requires e.tooLow <= DUP_MAX_TOO_LOW
    requires forall i :: 0 <= i < |ns| ==> ns[i] < SEQNO_RANGE && SeqnoDiff(ns[i], e.seqnr) < -31
    requires |ns| == DUP_MAX_TOO_LOW + 1 - e.tooLow
    ensures Feed(e, ns).0 == Entry(ns[|ns| - 1], 0, 1)
    ensures |Feed(e, ns).1| == |ns| && Feed(e, ns).1[|ns| - 1] == Restarted
    ensures forall i :: 0 <= i < |ns| - 1 ==> Feed(e, ns).1[i] == Blocked
    decreases |ns|
  {
    if |ns| > 1 {
      TooOldRestarts(e.(tooLow := e.tooLow + 1), ns[1..]);
    } else {
      assert Feed(Receive(e, ns[0]).0, ns[1..]) == (Receive(e, ns[0]).0, []);
    }
  }

  // ----- What a restart takes

  /** The message is more than 31 numbers behind the newest one. */
  predicate TooOld(t: Track, ev: Event) {
    ev.Message? && Position(t, ev.seqno) < t.head - 31
  }

  /** Event i of a run restarts the entry. */
  predicate Restarts(n: nat, evs: seq<Event>, i: nat)
    requires i < |evs|
  {
    evs[i].Message? && Receive(Replay(n, evs[..i]).e, evs[i].seqno).1.Restarted?
  }

  /** Event i of a run is a message that is too old and does not restart the entry. */
  predicate Overdue(n: nat, evs: seq<Event>, i: nat)
    requires i < |evs|
  {
    TooOld(Replay(n, evs[..i]), evs[i]) && !Restarts(n, evs, i)
  }

  /** The r events before event `end` are such messages. */
  ghost predicate Row(n: nat, evs: seq<Event>, end: nat, r: nat)
    requires end <= |evs|
  {
    r <= end && forall i :: end - r <= i < end ==> Overdue(n, evs, i)
  }

  function Counter(n: nat, evs: seq<Event>, end: nat): nat
    requires end <= |evs|
  {
    Replay(n, evs[..end]).e.tooLow
  }

  lemma ReplayStep(n: nat, evs: seq<Event>, i: nat)
    requires i < |evs|
    ensures Replay(n, evs[..i + 1]) == Step(Replay(n, evs[..i]), evs[i])
  {
    assert evs[..i + 1][..i] == evs[..i];
  }

  /** A row counts up by one with each message. */
  lemma {:induction false} RowCounts(n: nat, evs: seq<Event>, end: nat, r: nat)
    requires end <= |evs| && Row(n, evs, end, r)
    ensures Counter(n, evs, end) == Counter(n, evs, end - r) + r
  {
    if r > 0 {
      RowCounts(n, evs, end - 1, r - 1);
      assert Overdue(n, evs, end - 1);
      ReplayStep(n, evs, end - 1);
      hide Replay, Bit, OrBit, ShiftLeft;
    }
  }

  /** What the counter stands for: a row of that many messages, or the head start of a cleanup
      and a row of the rest. */
  ghost predicate CounterMeans(n: nat, evs: seq<Event>, end: nat)
    requires end <= |evs|
  {
    var c := Counter(n, evs, end);
    c <= DUP_MAX_TOO_LOW && (Row(n, evs, end, c) || (c >= 14 && AfterCleanup(n, evs, end, c - 14)))
  }

  /** A cleanup and then a row of r messages. */
  ghost predicate AfterCleanup(n: nat, evs: seq<Event>, end: nat, r: nat)
    requires end <= |evs|
  {
    r < end && evs[end - 1 - r].CleanupCall? && Row(n, evs, end, r)
  }

  lemma {:induction false} CounterIs(n: nat, evs: seq<Event>, end: nat)
    requires end <= |evs|
    ensures CounterMeans(n, evs, end)
  {
    if end > 0 {
      CounterIs(n, evs, end - 1);
      ReplayStep(n, evs, end - 1);
      CounterStep(Replay(n, evs[..end - 1]), evs[end - 1]);
      hide Replay, Step, Receive;
      var c := Counter(n, evs, end);
      if Overdue(n, evs, end - 1) {
        assert c == Counter(n, evs, end - 1) + 1;
        assert Row(n, evs, end - 1, c - 1) ==> Row(n, evs, end, c);
        assert c >= 15 && AfterCleanup(n, evs, end - 1, c - 15) ==> AfterCleanup(n, evs, end, c - 14);
      }
    }
  }

  lemma CounterStep(t: Track, ev: Event)
    ensures Step(t, ev).e.tooLow ==
      if ev.CleanupCall? then 14
      else if TooOld(t, ev) && !Receive(t.e, ev.seqno).1.Restarted? then t.e.tooLow + 1 else 0
    ensures ev.Message? && Receive(t.e, ev.seqno).1.Restarted? <==> TooOld(t, ev) && t.e.tooLow >= DUP_MAX_TOO_LOW
    ensures TooOld(t, ev) && !Receive(t.e, ev.seqno).1.Restarted? ==> t.e.tooLow < DUP_MAX_TOO_LOW
  {
    hide Bit, OrBit, ShiftLeft;
  }

  /** A restart takes a row of 17 messages that are all too old, with nothing in between; after a
      cleanup call three of them do. */
  lemma RestartIff(n: nat, evs: seq<Event>, i: nat)
    requires i < |evs|
    ensures Restarts(n, evs, i) <==>
      TooOld(Replay(n, evs[..i]), evs[i]) && (Row(n, evs, i, 16) || AfterCleanup(n, evs, i, 2))
  {
    CounterStep(Replay(n, evs[..i]), evs[i]);
    CounterIs(n, evs, i);
    if Row(n, evs, i, 16) {
      RowCounts(n, evs, i, 16);
    }
    if AfterCleanup(n, evs, i, 2) {
      RowCounts(n, evs, i, 2);
      ReplayStep(n, evs, i - 3);
      CounterStep(Replay(n, evs[..i - 3]), evs[i - 3]);
    }
    hide Replay, Step, Receive, Row;
  }

  /** The duplicate set: one entry per originator. */
  class DuplicateTable {
    var entries: map<Addr, Entry>

    ghost predicate Valid()
      reads this
    {
      forall a :: a in entries ==> entries[a].seqnr < SEQNO_RANGE && entries[a].tooLow <= DUP_MAX_TOO_LOW
    }

    /** The first message of an originator creates its entry and is no duplicate. */
    method MessageIsDuplicate(ip: Addr, seqnr: nat) returns (dup: bool)
      requires Valid() && seqnr < SEQNO_RANGE
      modifies this
      ensures Valid() && entries.Keys == old(entries).Keys + {ip}
      ensures forall a :: a in old(entries) && a != ip ==> entries[a] == old(entries)[a]
      ensures ip !in old(entries) ==> !dup && entries[ip] == Create(seqnr)
      ensures ip in old(entries) ==>
        entries[ip] == Receive(old(entries)[ip], seqnr).0 && dup == Receive(old(entries)[ip], seqnr).1.Blocked?
    {
      if ip !in entries {
        entries := entries[ip := Create(seqnr)];
        return false;
      }
      var e := entries[ip];
      var diff := SeqnoDiff(seqnr, e.seqnr);
      if diff < -31 {
        e := e.(tooLow := e.tooLow + 1);
        if e.tooLow > DUP_MAX_TOO_LOW {
          e := e.(tooLow := 0, seqnr := seqnr, window := 1);
          entries := entries[ip := e];
          return false;
        }
        entries := entries[ip := e];
        return true;
      }
      e := e.(tooLow := 0);
      if diff <= 0 {
        if Bit(e.window, -diff) {
          entries := entries[ip := e];
          return true;
        }
        e := e.(window := OrBit(e.window, -diff));
        entries := entries[ip := e];
        return false;
      } else if diff < 32 {
        e := e.(window := ShiftLeft(e.window, diff, WINDOW));
      } else {
        e := e.(window := 0);
      }
      e := e.(window := OrBit(e.window, 0));
      e := e.(seqnr := seqnr);
      entries := entries[ip := e];
      return false;
    }

    method CleanupDuplicates(ip: Addr)
      requires Valid()
      modifies this`entries
      ensures Valid() && entries == if ip in old(entries) then old(entries)[ip := Cleanup(old(entries)[ip])]
        else old(entries)
    {
      if ip in entries {
        entries := entries[ip := entries[ip].(tooLow := DUP_MAX_TOO_LOW - 2)];
      }
    }
  }
}
