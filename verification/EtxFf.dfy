/** The ETX-ff link metric: packets are counted in a sliding window, a timer turns the counts
    into a quality, and a hysteresis decides when the cost of a link follows. */
module EtxFf {
  import opened Words
  import Topology
  import Framing

  const WINDOW: nat := 32
  const QUICKSTART: nat := 4
  const LOSS_MULTIPLIER: nat := 65536
  /** The integer part of a tenth of 255. */
  const USEFUL: nat := 25
  const U16: nat := 0x1_0000
  const U32: nat := 0x1_0000_0000

  /** The quality of a link in both directions, 255 meaning no loss. */
  datatype Lq = Lq(lq: nat, nlq: nat)

  predicate IsLq(q: Lq) {
    q.lq < 256 && q.nlq < 256
  }

  // ----- Cost

  function Cost(q: Lq): nat
    requires IsLq(q)
  {
    if q.lq < USEFUL || q.nlq < USEFUL then Topology.LINK_COST_BROKEN else
    var product := q.lq * q.nlq;
    PositiveProduct(q.lq, q.nlq);
    var cost := 66585600 / product;
    if cost > Topology.LINK_COST_BROKEN then Topology.LINK_COST_BROKEN else if cost == 0 then 1 else cost
  }

  lemma PositiveProduct(a: nat, b: nat)
    requires a >= USEFUL && b >= USEFUL
    ensures a * b >= 625
  {
    ProductsGrow(25, a, b);
  }

  lemma ProductBound(a: nat, b: nat)
    requires a <= 255 && b <= 255
    ensures a * b <= 65025 && (a * b == 65025 <==> a == 255 && b == 255) && (a * b != 65025 ==> a * b <= 64770)
  {
    ProductsGrow(a, if a < 255 then 254 else 255, b);
  }

  /** A cost is broken exactly below the useful quality, else in a range that makes both
      corrections idle; only a perfect link has the least cost. */
  lemma CostRange(q: Lq)
    requires IsLq(q)
    ensures Cost(q) == Topology.LINK_COST_BROKEN <==> q.lq < USEFUL || q.nlq < USEFUL
    ensures Cost(q) != Topology.LINK_COST_BROKEN ==> 1024 <= Cost(q) <= 106536 && Cost(q) == 66585600 / (q.lq * q.nlq)
    ensures Cost(q) == 1024 <==> q == Lq(255, 255)
  {
    if q.lq >= USEFUL && q.nlq >= USEFUL {
      PositiveProduct(q.lq, q.nlq);
      ProductBound(q.lq, q.nlq);
      QuotientShrinks(66585600, 625, q.lq * q.nlq);
      QuotientShrinks(66585600, q.lq * q.nlq, 65025);
      if q.lq * q.nlq != 65025 {
        QuotientShrinks(66585600, q.lq * q.nlq, 64770);
      }
    }
  }

  /** A better link never costs more. */
  lemma CostShrinks(q: Lq, r: Lq)
    requires IsLq(q) && IsLq(r) && q.lq <= r.lq && q.nlq <= r.nlq
    ensures Cost(r) <= Cost(q)
  {
    CostRange(q);
    CostRange(r);
    hide Cost;
    if Cost(q) != Topology.LINK_COST_BROKEN {
      PositiveProduct(q.lq, q.nlq);
      ProductsGrow(q.lq, r.lq, q.nlq);
      ProductsGrow(q.nlq, r.nlq, r.lq);
      QuotientShrinks(66585600, q.lq * q.nlq, r.lq * r.nlq);
    }
  }

  /** Every edge that SPF may use has a cost that some quality gives. */
  ghost predicate Priced(g: Topology.Graph) {
    forall u, e :: u in g.edges && e in g.edges[u] && Topology.Usable(g, u, e) ==>
      exists q :: IsLq(q) && e.cost == Cost(q)
  }

  lemma PricedUpTo(g: Topology.Graph)
    requires Priced(g)
    ensures Topology.CostsUpTo(g, 106536)
  {
    forall u, e | u in g.edges && e in g.edges[u] && Topology.Usable(g, u, e)
      ensures e.cost <= 106536
    {
      var q :| IsLq(q) && e.cost == Cost(q);
      CostRange(q);
    }
  }

  lemma LineIsPriced(n: nat)
    ensures Priced(Topology.Line(n, 106536)) && |Topology.Line(n, 106536).edges| == n
  {
    var g := Topology.Line(n, 106536);
    Topology.LineCosts(n, 106536);
    forall u, e | u in g.edges && e in g.edges[u]
      ensures exists q :: IsLq(q) && e.cost == Cost(q)
    {
      Topology.LineUsable(n, 106536, u, e);
      assert IsLq(Lq(25, 25)) && Cost(Lq(25, 25)) == 106536;
    }
  }

  /** With this metric, wrap-around does no harm in any topology of up to 40314 vertices,
      and no further. */
  lemma HarmlessSizes(n: nat)
    ensures (forall g: Topology.Graph, root :: |g.edges| == n && Priced(g) ==> Topology.Harmless(g, root)) <==>
      n <= 40314
  {
    hide Priced, Topology.Harmless, Topology.CostsUpTo, Topology.Line;
    if n <= 40314 {
      forall g: Topology.Graph, root | |g.edges| == n && Priced(g)
        ensures Topology.Harmless(g, root)
      {
        PricedUpTo(g);
        Topology.SmallGraphsAreHarmless(g, root, 106536);
      }
    } else {
      LineIsPriced(n);
      Topology.LongLinesHarm(n, 106536);
      var g := Topology.Line(n, 106536);
      assert |g.edges| == n && Priced(g) && !Topology.Harmless(g, 0);
    }
  }

  // ----- Quality

  function Sum(s: seq<nat>): nat {
    if s == [] then 0 else Sum(s[..|s| - 1]) + s[|s| - 1]
  }

  /** What the missed hellos leave of the packets that were received; the interval is a 32 bit
      product. */
  function Remaining(received: nat, missed: nat, helloint: nat): nat {
    if missed <= 1 then received else
    var interval := missed * helloint % U32 / 1000;
    if interval > WINDOW then 0 else received * (WINDOW - interval) / WINDOW
  }

  /** The quality before it is cast to 8 bits, in fixed point arithmetic with 10 binary places. */
  function Quality(received: nat, total: nat, multiplier: nat): nat {
    if total == 0 then 0 else
    var ratio := multiplier * 1024 / LOSS_MULTIPLIER;
    ratio * received / total * 255 / 1024
  }

  /** The fixed point arithmetic of the timer. */
  method ComputeQuality(received: nat, total: nat, missed: nat, helloint: nat, multiplier: nat) returns (quality: nat)
    ensures quality == Quality(Remaining(received, missed, helloint), total, multiplier)
  {
    if total == 0 {
      return 0;
    }
    var ratio, r := multiplier * 1024 / LOSS_MULTIPLIER, received;
    if missed > 1 {
      var interval := missed * helloint % U32 / 1000;
      if interval > WINDOW {
        r := 0;
      } else {
        r := r * (WINDOW - interval) / WINDOW;
      }
    }
    ratio := ratio * r;
    ratio := ratio / total;
    ratio := ratio * 255;
    quality := ratio / 1024;
  }

  lemma RemainingIsLess(received: nat, missed: nat, helloint: nat)
    ensures Remaining(received, missed, helloint) <= received
  {
    if missed > 1 {
      var interval := missed * helloint % U32 / 1000;
      if interval <= WINDOW {
        Scaled(received, WINDOW - interval, WINDOW);
      }
    }
  }

  /** With no more packets received than sent the 8 bit cast of the quality loses nothing, and
      the quality is perfect exactly when nothing was lost and the multiplier is 1. */
  lemma QualityFits(received: nat, total: nat, multiplier: nat)
    requires received <= total && multiplier <= LOSS_MULTIPLIER
    ensures Quality(received, total, multiplier) <= 255
    ensures Quality(received, total, multiplier) == 255 <==>
      0 < total && received == total && multiplier == LOSS_MULTIPLIER
  {
    if total > 0 {
      var ratio := multiplier * 1024 / LOSS_MULTIPLIER;
      assert ratio <= 1024 && (ratio == 1024 <==> multiplier == LOSS_MULTIPLIER);
      Scaled(ratio, received, total);
    }
  }

  /** Missed hellos take away a share for each second that they span, and everything from 32
      seconds on. */
  lemma RemainingIs(received: nat, missed: nat, helloint: nat)
    requires missed * helloint < U32
    ensures missed <= 1 ==> Remaining(received, missed, helloint) == received
    ensures missed > 1 && missed * helloint >= 32000 ==> Remaining(received, missed, helloint) == 0
    ensures missed > 1 && missed * helloint < 32000 ==>
      var r, share := Remaining(received, missed, helloint), received * (32 - missed * helloint / 1000);
      32 * r <= share < 32 * r + 32
  {
    if missed > 1 {
      SecondsIn(missed * helloint);
      var interval := missed * helloint / 1000;
      if interval <= WINDOW {
        QuotientBounds(received * (WINDOW - interval), WINDOW);
        hide Remaining;
      }
    }
  }

  lemma SecondsIn(ms: nat)
    requires ms < U32
    ensures ms % U32 == ms && (ms >= 32000 <==> ms / 1000 >= 32)
  {
  }

  /** The quality is the share of received packets in 255ths, scaled by the multiplier and
      rounded down twice. */
  lemma QualityIsClose(received: nat, total: nat, multiplier: nat)
    requires total > 0
    ensures var q := Quality(received, total, multiplier);
      var exact := 255 * (multiplier * 1024 / LOSS_MULTIPLIER * received);
      1024 * q * total <= exact < (1024 * q + 1279) * total
  {
    var n := multiplier * 1024 / LOSS_MULTIPLIER * received;
    var a, q := n / total, Quality(received, total, multiplier);
    QuotientBounds(n, total);
    QuotientBounds(a * 255, 1024);
    assert 1024 * q <= 255 * a < 1024 * q + 1024;
    hide Quality;
    ProductsGrow(1024 * q, 255 * a, total);
    ProductsGrow(255 * a + 255, 1024 * q + 1278, total);
    assert 255 * a * total == 255 * (a * total) && (255 * a + 255) * total == 255 * (a * total + total);
  }

  // ----- The window of a link

  /** How far a sequence number is ahead; a jump counts as one packet. */
  function SeqDiff(last: nat, seqno: nat): nat
    requires last < U16 && seqno < U16
  {
    var d := if last > seqno then seqno + 65536 - last else seqno - last;
    if d > 256 then 1 else d
  }

  lemma CountKeeps(received: nat, total: nat, packets: nat, seqDiff: nat)
    requires InSlot(received, total, packets) && 1 <= seqDiff <= 256
    ensures InSlot((received + 1) % U16, (total + seqDiff) % U16, packets + 1)
  {
  }

  /** Fewer than 256 packets leave the 16 bit counters of a slot exact, with no more received
      than sent. */
  ghost predicate InSlot(received: nat, total: nat, packets: nat) {
    && received < U16 && total < U16
    && (packets < 256 ==> received == packets && packets <= total <= 3 + 256 * packets)
  }

  /** What packets and ticks do to a link, as a value. `packets` counts the packets in each slot
      since it was cleared. */
  datatype View = View(
    received: seq<nat>, total: seq<nat>, packets: seq<nat>, windowSize: nat, activePtr: nat,
    lastSeqNr: nat, missedHellos: nat, helloint: nat, multiplier: nat, raw: Lq)

  ghost predicate IsView(v: View) {
    && |v.received| == |v.total| == |v.packets| == WINDOW && v.multiplier <= LOSS_MULTIPLIER
    && QUICKSTART <= v.windowSize <= WINDOW && v.activePtr < WINDOW && v.lastSeqNr < U16 && v.missedHellos < U16
    && forall i :: 0 <= i < WINDOW ==> InSlot(v.received[i], v.total[i], v.packets[i])
  }

  /** A new link. */
  function NewView(multiplier: nat, helloint: nat): View {
    var zeros := seq(WINDOW, _ => 0);
    View(zeros, seq(WINDOW, _ => 3), zeros, QUICKSTART, 0, 0, 0, helloint, multiplier, Lq(0, 0))
  }

  /** The slots that the next tick takes into account. */
  function InUse(v: View): nat {
    if v.windowSize < WINDOW then v.windowSize + 1 else WINDOW
  }

  /** The quality that the next tick finds in the window, before the cast to 8 bits. */
  ghost function QualityOf(v: View): nat
    requires IsView(v)
  {
    Quality(Remaining(Sum(v.received[..InUse(v)]), v.missedHellos, v.helloint), Sum(v.total[..InUse(v)]), v.multiplier)
  }

  ghost function Ticked(v: View): View
    requires IsView(v)
  {
    var next := (v.activePtr + 1) % WINDOW;
    v.(received := v.received[next := 0], total := v.total[next := 0], packets := v.packets[next := 0],
       windowSize := InUse(v), activePtr := next, raw := v.raw.(lq := QualityOf(v) % 256))
  }

  ghost function Heard(v: View, seqno: nat): View
    requires IsView(v) && seqno < U16
  {
    if seqno == v.lastSeqNr then v
    else
      var a := v.activePtr;
      v.(received := v.received[a := (v.received[a] + 1) % U16],
         total := v.total[a := (v.total[a] + SeqDiff(v.lastSeqNr, seqno)) % U16],
         packets := v.packets[a := v.packets[a] + 1], lastSeqNr := seqno, missedHellos := 0)
  }

  lemma TickedIsView(v: View)
    requires IsView(v)
    ensures IsView(Ticked(v))
  {
    hide Quality, Remaining, Sum;
  }

  lemma HeardIsView(v: View, seqno: nat)
    requires IsView(v) && seqno < U16
    ensures IsView(Heard(v, seqno))
  {
    var a := v.activePtr;
    if seqno != v.lastSeqNr {
      CountKeeps(v.received[a], v.total[a], v.packets[a], SeqDiff(v.lastSeqNr, seqno));
    }
  }

  /** No slot has counted 256 packets. */
  ghost predicate IsCalm(v: View) {
    forall i :: 0 <= i < |v.packets| ==> v.packets[i] < 256
  }

  lemma {:induction false} SumsOrdered(v: View, n: nat)
    requires IsView(v) && IsCalm(v) && n <= WINDOW
    ensures Sum(v.received[..n]) <= Sum(v.total[..n])
  {
    if n > 0 {
      SumsOrdered(v, n - 1);
      assert v.received[..n][..n - 1] == v.received[..n - 1] && v.total[..n][..n - 1] == v.total[..n - 1];
      assert InSlot(v.received[n - 1], v.total[n - 1], v.packets[n - 1]);
    }
  }

  /** Then no slot counts more packets received than sent, and the cast loses nothing. */
  lemma CalmCasts(v: View)
    requires IsView(v) && IsCalm(v)
    ensures forall i :: 0 <= i < WINDOW ==> v.received[i] <= v.total[i]
    ensures QualityOf(v) < 256 && Ticked(v).raw.lq == QualityOf(v)
  {
    forall i | 0 <= i < WINDOW
      ensures v.received[i] <= v.total[i]
    {
      assert InSlot(v.received[i], v.total[i], v.packets[i]);
    }
    var n := InUse(v);
    SumsOrdered(v, n);
    hide Quality, Remaining, Sum;
    RemainingIsLess(Sum(v.received[..n]), v.missedHellos, v.helloint);
    QualityFits(Remaining(Sum(v.received[..n]), v.missedHellos, v.helloint), Sum(v.total[..n]), v.multiplier);
  }

  // ----- What the counters count

  lemma AddMod(a: nat, b: nat)
    ensures (a % U16 + b) % U16 == (a + b) % U16 && Word16(Word16(a) + b) == Word16(a + b)
  {
  }

  /** The difference of two numbers that are up to 256 apart is their distance, and that of any
      others is one. */
  lemma DiffIsDistance(p: nat, q: nat)
    requires p < q
    ensures q - p <= 256 ==> p % U16 != q % U16 && SeqDiff(p % U16, q % U16) == q - p
    ensures 256 < q - p < U16 ==> p % U16 != q % U16 && SeqDiff(p % U16, q % U16) == 1
  {
  }

  lemma BackIsOne(p: nat, q: nat)
    requires p < q < p + U16 - 256
    ensures q % U16 != p % U16 && SeqDiff(q % U16, p % U16) == 1
  {
  }

  /** The next packet counts as received, and it and all that are missing before it as sent. */
  lemma HeardCounts(v: View, p: nat, q: nat)
    requires IsView(v) && v.lastSeqNr == Word16(p) && p < q <= p + 256
    ensures var a := v.activePtr;
      Heard(v, Word16(q)) ==
        v.(received := v.received[a := Word16(v.received[a] + 1)], total := v.total[a := Word16(v.total[a] + (q - p))],
           packets := v.packets[a := v.packets[a] + 1], lastSeqNr := Word16(q), missedHellos := 0)
  {
    DiffIsDistance(p, q);
    hide SeqDiff;
  }

  /** A packet that comes late counts as one more received and sent, although it was already
      counted as sent, and the next one is measured from it. */
  lemma LateCounts(v: View, p: nat, q: nat)
    requires IsView(v) && v.lastSeqNr == Word16(q) && p < q < p + U16 - 256
    ensures var a := v.activePtr;
      Heard(v, Word16(p)) ==
        v.(received := v.received[a := Word16(v.received[a] + 1)], total := v.total[a := Word16(v.total[a] + 1)],
           packets := v.packets[a := v.packets[a] + 1], lastSeqNr := Word16(p), missedHellos := 0)
  {
    BackIsOne(p, q);
    hide SeqDiff;
  }

  /** Packets with the given numbers come in. */
  ghost function HearAll(v: View, ns: seq<nat>): (r: View)
    requires IsView(v) && forall i :: 0 <= i < |ns| ==> ns[i] < U16
    ensures IsView(r)
  {
    if ns == [] then v
    else
      var was := HearAll(v, ns[..|ns| - 1]);
      HeardIsView(was, ns[|ns| - 1]);
      Heard(was, ns[|ns| - 1])
  }

  /** ns are the 16-bit forms of ascending numbers after p, with gaps of up to 256. */
  ghost predicate Ascends(p: nat, qs: seq<nat>, ns: seq<nat>) {
    && |ns| == |qs| && (forall i :: 0 <= i < |qs| ==> ns[i] == Word16(qs[i]))
    && forall i :: 0 <= i < |qs| ==> StepsOn(p, qs, i)
  }

  /** Number i is up to 256 after the one before it. */
  predicate StepsOn(p: nat, qs: seq<nat>, i: nat)
    requires i < |qs|
  {
    After(p, qs, i) < qs[i] <= After(p, qs, i) + 256
  }

  /** The number before number i. */
  function After(p: nat, qs: seq<nat>, i: nat): nat
    requires i <= |qs|
  {
    if i == 0 then p else qs[i - 1]
  }

  /** From v to now the active slot counted k packets received and d sent, up to number last. */
  ghost predicate Counts(v: View, now: View, k: nat, d: nat, last: nat)
    requires IsView(v) && IsView(now)
  {
    var a := v.activePtr;
    && now.activePtr == a && now.lastSeqNr == Word16(last)
    && now.received == v.received[a := Word16(v.received[a] + k)]
    && now.total == v.total[a := Word16(v.total[a] + d)]
  }

  lemma CountsNothing(v: View, p: nat)
    requires IsView(v) && v.lastSeqNr == Word16(p)
    ensures Counts(v, v, 0, 0, p)
  {
    var a := v.activePtr;
    assert InSlot(v.received[a], v.total[a], v.packets[a]);
    assert v.received[a := v.received[a]] == v.received && v.total[a := v.total[a]] == v.total;
  }

  lemma CountsNext(v: View, was: View, k: nat, d: nat, p: nat, q: nat)
    requires IsView(v) && IsView(was) && Counts(v, was, k, d, p) && p < q <= p + 256
    ensures IsView(Heard(was, Word16(q))) && Counts(v, Heard(was, Word16(q)), k + 1, d + (q - p), q)
  {
    var a := v.activePtr;
    HeardIsView(was, Word16(q));
    HeardCounts(was, p, q);
    hide IsView, Heard, Word16;
    AddMod(v.received[a] + k, 1);
    AddMod(v.total[a] + d, q - p);
  }

  lemma AscendsPrefix(p: nat, qs: seq<nat>, ns: seq<nat>)
    requires Ascends(p, qs, ns) && qs != []
    ensures var k := |qs| - 1; Ascends(p, qs[..k], ns[..k]) && After(p, qs[..k], k) == After(p, qs, k)
  {
    var k := |qs| - 1;
    forall i | 0 <= i < k
      ensures StepsOn(p, qs[..k], i)
    {
      assert StepsOn(p, qs, i);
    }
  }

  /** The counters of the active slot count numbers: received those that came, total all up to
      the last one, so that their difference grows by those that never came. */
  lemma {:induction false} CountersCount(v: View, p: nat, qs: seq<nat>, ns: seq<nat>)
    requires IsView(v) && v.lastSeqNr == Word16(p) && Ascends(p, qs, ns)
    ensures var last := After(p, qs, |qs|); last >= p + |qs| && Counts(v, HearAll(v, ns), |qs|, last - p, last)
  {
    hide IsView, Heard, Counts, Word16;
    if qs == [] {
      CountsNothing(v, p);
    } else {
      var k := |qs| - 1;
      assert StepsOn(p, qs, k);
      AscendsPrefix(p, qs, ns);
      CountersCount(v, p, qs[..k], ns[..k]);
      var prev := After(p, qs, k);
      assert After(p, qs[..k], k) == prev;
      CountsNext(v, HearAll(v, ns[..k]), k, prev - p, prev, qs[k]);
    }
  }

  // ----- Links

  /** One link with its window of counters. */
  class Link {
    const received: array<nat>
    const total: array<nat>
    const multiplier: nat
    var helloint: nat
    var smoothed: Lq
    var raw: Lq
    var windowSize: nat
    var activePtr: nat
    var lastSeqNr: nat
    var missedHellos: nat
    var linkcost: nat
    /** How many packets were counted in each slot since it was cleared. */
    ghost var packets: seq<nat>

    ghost predicate Shape()
      reads this`packets, this`windowSize, this`activePtr, this`lastSeqNr, this`missedHellos
    {
      && received.Length == WINDOW && total.Length == WINDOW && |packets| == WINDOW && received != total
      && multiplier <= LOSS_MULTIPLIER && QUICKSTART <= windowSize <= WINDOW && activePtr < WINDOW
      && lastSeqNr < U16 && missedHellos < U16
    }

    /** The cost of a link is always the cost of its smoothed quality. */
    ghost predicate Priced()
      reads this`raw, this`smoothed, this`linkcost
    {
      IsLq(raw) && IsLq(smoothed) && linkcost == Cost(smoothed)
    }

    ghost predicate Counted()
      reads this`packets, this`windowSize, this`activePtr, this`lastSeqNr, this`missedHellos, received, total
      requires Shape()
    {
      forall i :: 0 <= i < WINDOW ==> InSlot(received[i], total[i], packets[i])
    }

    ghost predicate Valid()
      reads this, received, total
    {
      Shape() && Priced() && Counted()
    }

    ghost function Now(): View
      reads this`packets, this`windowSize, this`activePtr, this`lastSeqNr, this`missedHellos, this`helloint, this`raw
      reads received, total
    {
      View(received[..], total[..], packets, windowSize, activePtr, lastSeqNr, missedHellos, helloint, multiplier, raw)
    }

    /** default_lq_clear_ff_hello on a new link */
    constructor (multiplier: nat, helloint: nat)
      requires multiplier <= LOSS_MULTIPLIER
      ensures Valid() && fresh(received) && fresh(total)
      ensures Now() == NewView(multiplier, helloint) && smoothed == Lq(0, 0)
    {
      this.multiplier, this.helloint := multiplier, helloint;
      smoothed, raw, linkcost := Lq(0, 0), Lq(0, 0), Topology.LINK_COST_BROKEN;
      windowSize, activePtr, lastSeqNr, missedHellos := QUICKSTART, 0, 0, 0;
      received := new nat[WINDOW](_ => 0);
      total := new nat[WINDOW](_ => 3);
      packets := seq(WINDOW, _ => 0);
    }

    /** default_lq_parser_ff */
    method ReceivePacket(seqno: nat)
      requires Valid() && seqno < U16
      modifies received, total, this`packets, this`lastSeqNr, this`missedHellos
      ensures Valid() && IsView(old(Now())) && Now() == Heard(old(Now()), seqno)
    {
      hide Cost;
      if lastSeqNr == seqno {
        return;
      }
      var seqDiff := if lastSeqNr > seqno then seqno + 65536 - lastSeqNr else seqno - lastSeqNr;
      if seqDiff > 256 {
        seqDiff := 1;
      }
      CountKeeps(received[activePtr], total[activePtr], packets[activePtr], seqDiff);
      received[activePtr] := (received[activePtr] + 1) % U16;
      total[activePtr] := (total[activePtr] + seqDiff) % U16;
      packets := packets[activePtr := packets[activePtr] + 1];
      lastSeqNr := seqno;
      missedHellos := 0;
    }

    /** default_lq_packet_loss_worker_ff */
    method LosePacket(lost: bool)
      requires Valid()
      modifies this`missedHellos
      ensures Valid() && missedHellos == if lost then (old(missedHellos) + 1) % U16 else old(missedHellos)
    {
      if lost {
        missedHellos := (missedHellos + 1) % U16;
      }
    }

    /** default_lq_memorize_foreign_hello_ff; 0 when the neighbour reports nothing */
    method MemorizeForeignHello(reported: nat)
      requires Valid() && reported < 256
      modifies this`raw
      ensures Valid() && raw == old(raw).(nlq := reported)
    {
      raw := raw.(nlq := reported);
    }

    /** The sums over the part of the window that is in use. */
    method SumWindow() returns (r: nat, t: nat)
      requires Valid()
      ensures r == Sum(received[..windowSize]) && t == Sum(total[..windowSize])
    {
      r, t := 0, 0;
      for i := 0 to windowSize
        invariant r == Sum(received[..i]) && t == Sum(total[..i])
      {
        assert received[..i + 1][..i] == received[..i] && total[..i + 1][..i] == total[..i];
        r, t := r + received[i], t + total[i];
      }
    }

    /** The body of the loop of default_lq_ff_timer: the quality is measured and the window
        moves to the next slot, which is cleared. */
    method MeasureQuality()
      requires Valid()
      modifies received, total, this`packets, this`windowSize, this`activePtr, this`raw
      ensures Valid() && IsView(old(Now())) && Now() == Ticked(old(Now()))
    {
      hide Quality, Remaining, Sum, Cost;
      if windowSize < WINDOW {
        windowSize := windowSize + 1;
      }
      var r, t := SumWindow();
      var quality := ComputeQuality(r, t, missedHellos, helloint, multiplier);
      raw := raw.(lq := quality % 256);
      Shift();
    }

    method Shift()
      requires Valid()
      modifies received, total, this`packets, this`activePtr
      ensures Valid() && activePtr == (old(activePtr) + 1) % WINDOW && packets == old(packets)[activePtr := 0]
      ensures received[..] == old(received[..])[activePtr := 0] && total[..] == old(total[..])[activePtr := 0]
    {
      activePtr := (activePtr + 1) % WINDOW;
      total[activePtr] := 0;
      received[activePtr] := 0;
      packets := packets[activePtr := 0];
    }
  }

  // ----- Hysteresis

  /** A smoothed value is close to the raw one: not off by more than a tenth of itself, and
      not short of a perfect one. */
  predicate CloseTo(smoothed: nat, raw: nat) {
    && (smoothed < raw ==> raw != 255 && raw - smoothed <= smoothed / 10)
    && (smoothed > raw ==> smoothed - raw <= smoothed / 10)
  }

  predicate Close(smoothed: Lq, raw: Lq) {
    CloseTo(smoothed.lq, raw.lq) && CloseTo(smoothed.nlq, raw.nlq)
  }

  /** No two links share anything. */
  ghost predicate Separate(links: seq<Link>) {
    forall a, b :: 0 <= a < |links| && 0 <= b < |links| && a != b ==> Apart(links[a], links[b])
  }

  ghost predicate Apart(a: Link, b: Link) {
    a != b && a.received != b.received && a.received != b.total && a.total != b.received && a.total != b.total
  }

  ghost predicate AllPriced(links: seq<Link>)
    reads links
  {
    forall k :: 0 <= k < |links| ==> links[k].Priced()
  }

  ghost predicate AllClose(links: seq<Link>)
    reads links
  {
    forall k :: 0 <= k < |links| ==> Close(links[k].smoothed, links[k].raw)
  }

  /** The first loop of default_lq_ff_handle_lqchange, for one link. */
  method Adopt(link: Link) returns (relevant: bool)
    requires link.Priced()
    modifies link`smoothed, link`linkcost
    ensures link.Priced() && (relevant <==> !Close(old(link.smoothed), link.raw))
    ensures link.smoothed == if relevant then link.raw else old(link.smoothed)
  {
    relevant := false;
    if link.smoothed.lq < link.raw.lq {
      if link.raw.lq == 255 || link.raw.lq - link.smoothed.lq > link.smoothed.lq / 10 {
        relevant := true;
      }
    } else if link.smoothed.lq > link.raw.lq {
      if link.smoothed.lq - link.raw.lq > link.smoothed.lq / 10 {
        relevant := true;
      }
    }
    if link.smoothed.nlq < link.raw.nlq {
      if link.raw.nlq == 255 || link.raw.nlq - link.smoothed.nlq > link.smoothed.nlq / 10 {
        relevant := true;
      }
    } else if link.smoothed.nlq > link.raw.nlq {
      if link.smoothed.nlq - link.raw.nlq > link.smoothed.nlq / 10 {
        relevant := true;
      }
    }
    if relevant {
      link.smoothed := link.raw;
      link.linkcost := Cost(link.smoothed);
    }
  }

  /** The first loop: links that moved too far follow their raw quality. */
  method AdoptAll(links: seq<Link>) returns (triggered: bool)
    requires Separate(links) && AllPriced(links)
    modifies links`smoothed, links`linkcost
    ensures AllPriced(links) && AllClose(links)
    ensures triggered <==> exists k :: 0 <= k < |links| && !Close(old(links[k].smoothed), links[k].raw)
    ensures forall k :: 0 <= k < |links| ==>
      links[k].smoothed == old(links[k].smoothed) || (triggered && links[k].smoothed == links[k].raw)
  {
    hide Close, Cost;
    triggered := false;
    for i := 0 to |links|
      invariant AllPriced(links)
      invariant triggered <==> exists k :: 0 <= k < i && !Close(old(links[k].smoothed), links[k].raw)
      invariant forall k :: 0 <= k < i ==> Close(links[k].smoothed, links[k].raw)
      invariant forall k :: 0 <= k < i ==>
        links[k].smoothed == old(links[k].smoothed) || (triggered && links[k].smoothed == links[k].raw)
      invariant forall k :: i <= k < |links| ==> links[k].smoothed == old(links[k].smoothed)
    {
      var relevant := Adopt(links[i]);
      CloseToItself(links[i].raw);
      triggered := triggered || relevant;
    }
  }

  /** The second loop: all others follow as well, except those that are perfect. */
  method FollowAll(links: seq<Link>)
    requires Separate(links) && AllPriced(links) && AllClose(links)
    modifies links`smoothed, links`linkcost
    ensures AllPriced(links) && AllClose(links)
    ensures forall k :: 0 <= k < |links| ==> links[k].smoothed == if old(links[k].smoothed) == Lq(255, 255)
      then Lq(255, 255) else links[k].raw
  {
    hide Close, Cost;
    for i := 0 to |links|
      invariant AllPriced(links) && AllClose(links)
      invariant forall k :: 0 <= k < i ==> links[k].smoothed == if old(links[k].smoothed) == Lq(255, 255)
        then Lq(255, 255) else links[k].raw
      invariant forall k :: i <= k < |links| ==> links[k].smoothed == old(links[k].smoothed)
    {
      var link := links[i];
      CloseToItself(link.raw);
      if link.smoothed.lq == 255 && link.smoothed.nlq == 255 {
        continue;
      }
      if link.smoothed.lq == link.raw.lq && link.smoothed.nlq == link.raw.nlq {
        continue;
      }
      link.smoothed := link.raw;
      link.linkcost := Cost(link.smoothed);
    }
  }

  /** default_lq_ff_handle_lqchange: routes are computed anew exactly when some link had moved
      too far. Then every link follows its raw quality, except those that stay perfect. */
  method HandleLqChange(links: seq<Link>) returns (triggered: bool)
    requires Separate(links) && AllPriced(links)
    modifies links`smoothed, links`linkcost
    ensures AllPriced(links) && AllClose(links)
    ensures triggered <==> exists k :: 0 <= k < |links| && !Close(old(links[k].smoothed), links[k].raw)
    ensures triggered ==> forall k :: 0 <= k < |links| ==>
      links[k].smoothed == links[k].raw || links[k].smoothed == old(links[k].smoothed) == Lq(255, 255)
    ensures !triggered ==> forall k :: 0 <= k < |links| ==> links[k].smoothed == old(links[k].smoothed)
  {
    hide Close, Cost, Link.Priced;
    triggered := AdoptAll(links);
    if triggered {
      FollowAll(links);
    }
  }

  lemma CloseToItself(q: Lq)
    ensures Close(q, q)
  {
  }

  // ----- Runs

  function Counters(links: seq<Link>): set<object> {
    (set k | 0 <= k < |links| :: links[k].received) + (set k | 0 <= k < |links| :: links[k].total)
  }

  ghost predicate AllCounted(links: seq<Link>)
    reads links`packets, links`windowSize, links`activePtr, links`lastSeqNr, links`missedHellos, Counters(links)
  {
    forall k :: 0 <= k < |links| ==> links[k].Shape() && links[k].Counted()
  }

  ghost predicate AllValid(links: seq<Link>)
    reads links, Counters(links)
  {
    AllCounted(links) && AllPriced(links)
  }

  /** The loop of default_lq_ff_timer over the links. */
  method MeasureAll(links: seq<Link>)
    requires Separate(links) && AllValid(links)
    modifies links, Counters(links)
    ensures AllValid(links)
    ensures forall k :: 0 <= k < |links| ==> links[k].smoothed == old(links[k].smoothed)
    ensures forall k :: 0 <= k < |links| ==>
      IsView(old(links[k].Now())) && links[k].Now() == Ticked(old(links[k].Now()))
  {
    hide AllValid, Link.Now, IsView, Ticked;
    for i := 0 to |links|
      invariant AllValid(links)
      invariant forall k :: 0 <= k < |links| ==> links[k].smoothed == old(links[k].smoothed)
      invariant forall k :: 0 <= k < i ==> IsView(old(links[k].Now())) && links[k].Now() == Ticked(old(links[k].Now()))
      invariant forall k :: i <= k < |links| ==>
        unchanged(links[k]) && unchanged(links[k].received) && unchanged(links[k].total)
    {
      MeasureAt(links, i);
    }
  }

  method MeasureAt(links: seq<Link>, i: nat)
    requires Separate(links) && AllValid(links) && i < |links|
    modifies links[i], links[i].received, links[i].total
    ensures AllValid(links) && links[i].smoothed == old(links[i].smoothed)
    ensures IsView(old(links[i].Now())) && links[i].Now() == Ticked(old(links[i].Now()))
  {
    hide Link.Shape, Link.Counted, Link.Priced, Link.Now, IsView, Ticked;
    links[i].MeasureQuality();
  }

  /** default_lq_ff_timer */
  method Timer(links: seq<Link>) returns (triggered: bool)
    requires Separate(links) && AllValid(links)
    modifies links, Counters(links)
    ensures AllValid(links) && AllClose(links)
    ensures forall k :: 0 <= k < |links| ==>
      IsView(old(links[k].Now())) && links[k].Now() == Ticked(old(links[k].Now()))
    ensures triggered <==> exists k :: 0 <= k < |links| && !Close(old(links[k].smoothed), links[k].raw)
    ensures !triggered ==> forall k :: 0 <= k < |links| ==> links[k].smoothed == old(links[k].smoothed)
  {
    hide AllCounted, AllPriced, AllClose, Close, Link.Now, IsView, Ticked;
    MeasureAll(links);
    triggered := HandleLqChange(links);
  }

  datatype Event =
    | Packet(link: nat, seqno: nat)
    | Hello(link: nat, reported: nat)
    | Interval(link: nat, helloint: nat)
    | Loss(link: nat)
    | Tick

  predicate IsEvent(e: Event) {
    match e
    case Packet(_, seqno) => seqno < U16
    case Hello(_, reported) => reported < 256
    case _ => true
  }

  ghost predicate AreEvents(events: seq<Event>) {
    forall i :: 0 <= i < |events| ==> IsEvent(events[i])
  }

  /** What an event does to link k. */
  ghost function React(v: View, e: Event, k: nat): View
    requires IsView(v) && IsEvent(e)
  {
    match e
    case Tick => Ticked(v)
    case Packet(link, seqno) => if link == k then Heard(v, seqno) else v
    case Hello(link, reported) => if link == k then v.(raw := v.raw.(nlq := reported)) else v
    case Interval(link, helloint) => if link == k then v.(helloint := helloint) else v
    case Loss(link) => if link == k then v.(missedHellos := (v.missedHellos + 1) % U16) else v
  }

  lemma ReactIsView(v: View, e: Event, k: nat)
    requires IsView(v) && IsEvent(e)
    ensures IsView(React(v, e, k))
  {
    hide Ticked, Heard;
    if e.Tick? {
      TickedIsView(v);
    } else if e.Packet? {
      HeardIsView(v, e.seqno);
    }
  }

  /** What the first n events do to link k. */
  ghost function Replay(v: View, events: seq<Event>, n: nat, k: nat): (r: View)
    requires IsView(v) && n <= |events| && AreEvents(events)
    ensures IsView(r)
  {
    if n == 0 then v
    else
      var was := Replay(v, events, n - 1, k);
      ReactIsView(was, events[n - 1], k);
      React(was, events[n - 1], k)
  }

  /** One event; packets from unknown links are ignored. */
  method Step(links: seq<Link>, e: Event)
    requires Separate(links) && AllValid(links) && IsEvent(e)
    modifies links, Counters(links)
    ensures AllValid(links) && (e.Tick? ==> AllClose(links))
    ensures forall k :: 0 <= k < |links| ==>
      IsView(old(links[k].Now())) && links[k].Now() == React(old(links[k].Now()), e, k)
  {
    AreViews(links);
    hide Link.Shape, Link.Counted, Link.Priced, Link.Now, AllClose, IsView, Ticked, Heard;
    if e.Tick? {
      var triggered := Timer(links);
    } else if e.link < |links| {
      ReactTo(links[e.link], e);
    }
  }

  /** An event of one link. */
  method ReactTo(link: Link, e: Event)
    requires link.Valid() && IsEvent(e) && !e.Tick?
    modifies link, link.received, link.total
    ensures link.Valid() && IsView(old(link.Now())) && link.Now() == React(old(link.Now()), e, e.link)
    ensures link.smoothed == old(link.smoothed)
  {
    assert IsView(link.Now());
    hide Cost, IsView, Heard;
    match e
    case Packet(_, seqno) => link.ReceivePacket(seqno);
    case Hello(_, reported) => link.MemorizeForeignHello(reported);
    case Interval(_, helloint) => link.helloint := helloint;
    case Loss(_) => link.LosePacket(true);
  }

  lemma AreViews(links: seq<Link>)
    requires AllCounted(links)
    ensures forall k :: 0 <= k < |links| ==> IsView(links[k].Now())
  {
  }

  /** Whatever happens to the links, each goes through exactly the states that its events
      prescribe, costs and counters stay consistent, and after every tick all smoothed
      qualities are close to the raw ones. */
  method Run(links: seq<Link>, events: seq<Event>)
    requires Separate(links) && AllValid(links) && AreEvents(events)
    modifies links, Counters(links)
    ensures AllValid(links) && (events != [] && events[|events| - 1].Tick? ==> AllClose(links))
    ensures forall k :: 0 <= k < |links| ==>
      IsView(old(links[k].Now())) && links[k].Now() == Replay(old(links[k].Now()), events, |events|, k)
  {
    AreViews(links);
    hide AllValid, AllClose, Link.Now, IsView, React;
    for i := 0 to |events|
      invariant AllValid(links) && (0 < i && events[i - 1].Tick? ==> AllClose(links))
      invariant forall k :: 0 <= k < |links| ==> links[k].Now() == Replay(old(links[k].Now()), events, i, k)
    {
      Step(links, events[i]);
    }
  }

  // ----- What a run counts

  /** The numbers of the packets of link k among events n to m. */
  function Numbers(events: seq<Event>, n: nat, m: nat, k: nat): seq<nat>
    requires n <= m <= |events|
  {
    if m == n then []
    else
      var e := events[m - 1];
      Numbers(events, n, m - 1, k) + if e.Packet? && e.link == k then [e.seqno] else []
  }

  lemma {:induction false} NumbersFit(events: seq<Event>, n: nat, m: nat, k: nat)
    requires n <= m <= |events| && AreEvents(events)
    ensures forall i :: 0 <= i < |Numbers(events, n, m, k)| ==> Numbers(events, n, m, k)[i] < U16
  {
    if n < m {
      NumbersFit(events, n, m - 1, k);
    }
  }

  ghost predicate SameCounters(v: View, w: View) {
    && v.received == w.received && v.total == w.total && v.packets == w.packets
    && v.windowSize == w.windowSize && v.activePtr == w.activePtr && v.lastSeqNr == w.lastSeqNr
  }

  lemma HearAllSnoc(v: View, ns: seq<nat>, x: nat)
    requires IsView(v) && x < U16 && forall i :: 0 <= i < |ns| ==> ns[i] < U16
    ensures HearAll(v, ns + [x]) == Heard(HearAll(v, ns), x)
  {
    assert (ns + [x])[..|ns|] == ns;
  }

  lemma ReactCounters(v: View, w: View, e: Event, k: nat)
    requires IsView(v) && IsView(w) && IsEvent(e) && !e.Tick? && SameCounters(v, w)
    ensures SameCounters(React(v, e, k), if e.Packet? && e.link == k then Heard(w, e.seqno) else w)
  {
    hide InSlot, SeqDiff;
  }

  /** Between two ticks a link hears its packets, and nothing else touches its counters. */
  lemma {:induction false} ReplayHears(v: View, events: seq<Event>, n: nat, m: nat, k: nat)
    requires IsView(v) && AreEvents(events) && n <= m <= |events| && forall i :: n <= i < m ==> !events[i].Tick?
    requires forall i :: 0 <= i < |Numbers(events, n, m, k)| ==> Numbers(events, n, m, k)[i] < U16
    ensures SameCounters(Replay(v, events, m, k), HearAll(Replay(v, events, n, k), Numbers(events, n, m, k)))
  {
    if n < m {
      NumbersFit(events, n, m - 1, k);
      ReplayHears(v, events, n, m - 1, k);
      var was, ns, e := Replay(v, events, n, k), Numbers(events, n, m - 1, k), events[m - 1];
      hide IsView, React, Heard, HearAll;
      ReactCounters(Replay(v, events, m - 1, k), HearAll(was, ns), e, k);
      if e.Packet? && e.link == k {
        HearAllSnoc(was, ns, e.seqno);
      } else {
        assert ns + [] == ns;
      }
    }
  }

  /** So between two ticks received grows by the packets that came, and total by the distance
      from the last number before to the last one heard. */
  lemma RunCounts(v: View, events: seq<Event>, n: nat, m: nat, k: nat, p: nat, qs: seq<nat>)
    requires IsView(v) && AreEvents(events) && n <= m <= |events| && forall i :: n <= i < m ==> !events[i].Tick?
    requires Replay(v, events, n, k).lastSeqNr == Word16(p) && Ascends(p, qs, Numbers(events, n, m, k))
    ensures var last := After(p, qs, |qs|);
      last >= p + |qs| && Counts(Replay(v, events, n, k), Replay(v, events, m, k), |qs|, last - p, last)
  {
    NumbersFit(events, n, m, k);
    ReplayHears(v, events, n, m, k);
    hide IsView, HearAll, Replay, Numbers;
    CountersCount(Replay(v, events, n, k), p, qs, Numbers(events, n, m, k));
  }

  /** The numbers of some packets. */
  function NumbersAt(sent: seq<seq<Framing.Byte>>, at: seq<nat>): (ns: seq<nat>)
    requires forall i :: 0 <= i < |at| ==> at[i] < |sent| && |sent[at[i]]| >= Framing.HEADERSIZE
    ensures |ns| == |at| && forall i :: 0 <= i < |at| ==> ns[i] == Framing.PacketNumber(sent[at[i]]) < U16
  {
    seq(|at|, i requires 0 <= i < |at| => Framing.PacketNumber(sent[at[i]]))
  }

  /** Places after `start` in ascending order, no more than 256 apart. */
  ghost predicate Onwards(start: nat, at: seq<nat>, end: nat) {
    (forall i :: 0 <= i < |at| ==> at[i] < end) && forall i :: 0 <= i < |at| ==> StepsOn(start, at, i)
  }

  lemma NumbersAscend(sent: seq<seq<Framing.Byte>>, first: nat, start: nat, at: seq<nat>, qs: seq<nat>)
    requires Framing.Numbered(sent, first) && Onwards(start, at, |sent|)
    requires |qs| == |at| && forall i :: 0 <= i < |at| ==> qs[i] == first + at[i]
    ensures Ascends(first + start, qs, NumbersAt(sent, at))
    ensures After(first + start, qs, |qs|) == first + After(start, at, |at|)
  {
    hide Framing.PacketNumber, Word16;
    var ns := NumbersAt(sent, at);
    forall i | 0 <= i < |at|
      ensures ns[i] == Word16(qs[i])
    {
      NumberIs(sent, first, at[i]);
    }
    var p := first + start;
    forall i | 0 <= i < |at|
      ensures StepsOn(p, qs, i)
    {
      assert StepsOn(start, at, i);
    }
  }

  lemma NumberIs(sent: seq<seq<Framing.Byte>>, first: nat, i: nat)
    requires Framing.Numbered(sent, first) && i < |sent|
    ensures |sent[i]| >= Framing.HEADERSIZE && Framing.PacketNumber(sent[i]) == Word16(first + i)
  {
    hide Framing.PacketNumber, Word16;
  }

  lemma {:induction false} OnwardsGrows(start: nat, at: seq<nat>, end: nat, n: nat)
    requires Onwards(start, at, end) && n <= |at|
    ensures After(start, at, n) >= start + n
  {
    if n > 0 {
      OnwardsGrows(start, at, end, n - 1);
      assert StepsOn(start, at, n - 1);
    }
  }

  /** From one node to another: of the packets that a buffer sent, which are numbered one after the
      other, some come through in order, with no more than 255 lost in a row. Then received
      counts those that came, and total all that were sent in the meantime. */
  lemma LossIsCounted(sent: seq<seq<Framing.Byte>>, first: nat, v: View, start: nat, at: seq<nat>)
    requires Framing.Numbered(sent, first) && start < |sent| && Onwards(start, at, |sent|)
    requires IsView(v) && v.lastSeqNr == Framing.PacketNumber(sent[start])
    ensures After(start, at, |at|) >= start + |at|
    ensures var last := After(start, at, |at|);
      Counts(v, HearAll(v, NumbersAt(sent, at)), |at|, last - start, first + last)
  {
    hide IsView, HearAll, Counts, Framing.PacketNumber, Word16, Ascends, NumbersAt;
    OnwardsGrows(start, at, |sent|, |at|);
    NumberIs(sent, first, start);
    NumbersAscend(sent, first, start, at, Shifted(first, at));
    CountersCount(v, first + start, Shifted(first, at), NumbersAt(sent, at));
  }

  function Shifted(first: nat, at: seq<nat>): (qs: seq<nat>)
    ensures |qs| == |at| && forall i :: 0 <= i < |at| ==> qs[i] == first + at[i]
  {
    seq(|at|, i requires 0 <= i < |at| => first + at[i])
  }

  // ----- When the cast to 8 bits loses nothing

  /** The packets of link k among the first n events since the last tick. */
  function Since(events: seq<Event>, n: nat, k: nat): nat
    requires n <= |events|
  {
    if n == 0 || events[n - 1].Tick? then 0
    else Since(events, n - 1, k) + if events[n - 1].Packet? && events[n - 1].link == k then 1 else 0
  }

  /** Fewer than b packets come in on link k between two ticks. */
  ghost predicate FewerThan(b: nat, events: seq<Event>, k: nat) {
    forall n :: 0 <= n <= |events| ==> Since(events, n, k) < b
  }

  /** No slot has counted 256 packets, and the active one no more than n. */
  ghost predicate IsLoaded(v: View, n: nat) {
    IsCalm(v) && v.activePtr < |v.packets| && v.packets[v.activePtr] <= n
  }

  lemma ReactLoad(v: View, e: Event, k: nat, n: nat)
    requires IsView(v) && IsEvent(e) && IsLoaded(v, n) && n < 256
    requires e.Packet? && e.link == k ==> n + 1 < 256
    ensures IsLoaded(React(v, e, k), if e.Tick? then 0 else if e.Packet? && e.link == k then n + 1 else n)
  {
    hide Quality, Remaining, Sum, InSlot;
  }

  lemma {:induction false} ReplayLoad(v: View, events: seq<Event>, n: nat, k: nat)
    requires IsView(v) && AreEvents(events) && n <= |events| && IsLoaded(v, 0) && FewerThan(256, events, k)
    ensures IsLoaded(Replay(v, events, n, k), Since(events, n, k))
  {
    if n > 0 {
      ReplayLoad(v, events, n - 1, k);
      assert Since(events, n, k) < 256 && Since(events, n - 1, k) < 256;
      hide IsView, IsLoaded, React;
      ReactLoad(Replay(v, events, n - 1, k), events[n - 1], k, Since(events, n - 1, k));
    }
  }

  /** With fewer than 256 packets between two ticks no slot ever counts more packets received
      than sent, and whenever a tick comes its cast loses nothing. */
  lemma GentleNeverTruncates(v: View, events: seq<Event>, n: nat, k: nat)
    requires IsView(v) && AreEvents(events) && n <= |events| && IsLoaded(v, 0) && FewerThan(256, events, k)
    ensures var now := Replay(v, events, n, k);
      && (forall i :: 0 <= i < WINDOW ==> now.received[i] <= now.total[i])
      && QualityOf(now) < 256 && Ticked(now).raw.lq == QualityOf(now)
  {
    ReplayLoad(v, events, n, k);
    hide QualityOf, Ticked, IsView;
    CalmCasts(Replay(v, events, n, k));
  }

  /** n packets in a row on link 0, each 256 numbers after the one before. */
  function Burst(n: nat): seq<Event> {
    if n == 0 then [] else Burst(n - 1) + [Packet(0, 256 * n % U16)]
  }

  lemma {:induction false} BurstIs(n: nat)
    ensures |Burst(n)| == n && AreEvents(Burst(n))
    ensures forall i :: 0 <= i < n ==> Burst(n)[i] == Packet(0, 256 * (i + 1) % U16)
  {
    if n > 0 {
      BurstIs(n - 1);
    }
  }

  lemma {:induction false} BurstSince(n: nat, i: nat, k: nat)
    requires i <= n && |Burst(n)| == n
    ensures Since(Burst(n), i, k) == if k == 0 then i else 0
  {
    BurstIs(n);
    hide Burst;
    if i > 0 {
      BurstSince(n, i - 1, k);
    }
  }

  /** A new link after i packets of the burst. */
  function BurstView(v: View, i: nat): View
    requires |v.received| == |v.total| == |v.packets| == WINDOW
  {
    v.(received := v.received[0 := i], total := v.total[0 := (3 + 256 * i) % U16], packets := v.packets[0 := i],
       lastSeqNr := 256 * i % U16)
  }

  lemma BurstStep(v: View, i: nat)
    requires IsView(v) && v.activePtr == 0 && v.missedHellos == 0 && 0 < i <= 256 && IsView(BurstView(v, i - 1))
    ensures Heard(BurstView(v, i - 1), 256 * i % U16) == BurstView(v, i)
  {
    BurstDiff(i);
    hide InSlot, SeqDiff;
    var was, now := BurstView(v, i - 1), BurstView(v, i);
    assert was.received[0] == i - 1 && was.received[0 := i] == now.received;
    assert was.total[0 := (3 + 256 * i) % U16] == now.total && was.packets[0 := i] == now.packets;
  }

  lemma {:induction false} BurstCounts(v: View, n: nat, i: nat)
    requires IsView(v) && v.activePtr == 0 && v.missedHellos == 0 && v.lastSeqNr == 0
    requires v.received[0] == 0 && v.total[0] == 3 && v.packets[0] == 0
    requires i <= n <= 256 && |Burst(n)| == n && AreEvents(Burst(n))
    ensures Replay(v, Burst(n), i, 0) == BurstView(v, i)
  {
    BurstIs(n);
    hide Burst, Heard;
    if i == 0 {
      assert v.received[0 := 0] == v.received && v.total[0 := 3] == v.total && v.packets[0 := 0] == v.packets;
    } else {
      hide IsView;
      BurstCounts(v, n, i - 1);
      assert Burst(n)[i - 1] == Packet(0, 256 * i % U16);
      BurstStep(v, i);
    }
  }

  lemma BurstDiff(i: nat)
    requires 0 < i <= 256
    ensures 256 * (i - 1) % U16 != 256 * i % U16 && SeqDiff(256 * (i - 1) % U16, 256 * i % U16) == 256
    ensures ((3 + 256 * (i - 1)) % U16 + 256) % U16 == (3 + 256 * i) % U16
  {
    DiffIsDistance(256 * (i - 1), 256 * i);
    AddMod(3 + 256 * (i - 1), 256);
  }

  lemma NewIsView(multiplier: nat, helloint: nat)
    requires multiplier <= LOSS_MULTIPLIER
    ensures IsView(NewView(multiplier, helloint)) && IsLoaded(NewView(multiplier, helloint), 0)
  {
  }

  /** With 256 packets the 16-bit sum wraps, and the cast loses something. */
  lemma BurstTruncates()
    ensures var v, events := NewView(LOSS_MULTIPLIER, 0), Burst(256);
      && IsView(v) && |events| == 256 && AreEvents(events) && QualityOf(Replay(v, events, 256, 0)) >= 256
  {
    var v := NewView(LOSS_MULTIPLIER, 0);
    NewIsView(LOSS_MULTIPLIER, 0);
    BurstIs(256);
    BurstCounts(v, 256, 256);
    FullQuality(v, Replay(v, Burst(256), 256, 0));
    hide Burst, Replay, NewView, QualityOf;
  }

  lemma FullQuality(v: View, now: View)
    requires v == NewView(LOSS_MULTIPLIER, 0) && now == BurstView(v, 256) && IsView(now)
    ensures QualityOf(now) >= 256
  {
    hide IsView, Quality, Remaining, Sum;
    assert now.received[..5] == [256, 0, 0, 0, 0] && now.total[..5] == [3, 3, 3, 3, 3];
    SumOfFive(256, 0, 0, 0, 0);
    SumOfFive(3, 3, 3, 3, 3);
    QualityThere();
  }

  lemma QualityThere()
    ensures Remaining(256, 0, 0) == 256 && Quality(256, 15, LOSS_MULTIPLIER) >= 256
  {
  }

  lemma SumSnoc(s: seq<nat>, x: nat)
    ensures Sum(s + [x]) == Sum(s) + x
  {
    assert (s + [x])[..|s|] == s;
  }

  lemma SumOfFive(a: nat, b: nat, c: nat, d: nat, e: nat)
    ensures Sum([a, b, c, d, e]) == a + b + c + d + e
  {
    SumSnoc([], a);
    SumSnoc([a], b);
    SumSnoc([a, b], c);
    SumSnoc([a, b, c], d);
    SumSnoc([a, b, c, d], e);
    assert [] + [a] == [a] && [a] + [b] == [a, b] && [a, b] + [c] == [a, b, c];
    assert [a, b, c] + [d] == [a, b, c, d] && [a, b, c, d] + [e] == [a, b, c, d, e];
  }

  /** Whenever a tick comes to link k, its cast loses nothing. */
  ghost predicate NeverTruncates(v: View, events: seq<Event>, k: nat)
    requires IsView(v) && AreEvents(events)
  {
    forall n :: 0 <= n <= |events| ==> QualityOf(Replay(v, events, n, k)) < 256
  }

  /** On new links: fewer than b packets between two ticks are safe if and only if b is at
      most 256. */
  lemma SafePackets(b: nat)
    ensures (forall multiplier: nat, helloint: nat, events, k: nat ::
               multiplier <= LOSS_MULTIPLIER && AreEvents(events) && FewerThan(b, events, k) ==>
               IsView(NewView(multiplier, helloint)) && NeverTruncates(NewView(multiplier, helloint), events, k)) <==>
            b <= 256
  {
    hide IsView, IsLoaded, NewView, Burst;
    if b <= 256 {
      forall multiplier: nat, helloint: nat, events, k: nat |
        multiplier <= LOSS_MULTIPLIER && AreEvents(events) && FewerThan(b, events, k)
        ensures IsView(NewView(multiplier, helloint)) && NeverTruncates(NewView(multiplier, helloint), events, k)
      {
        var v := NewView(multiplier, helloint);
        NewIsView(multiplier, helloint);
        forall n | 0 <= n <= |events|
          ensures QualityOf(Replay(v, events, n, k)) < 256
        {
          GentleNeverTruncates(v, events, n, k);
        }
      }
    } else {
      BurstTruncates();
      NewIsView(LOSS_MULTIPLIER, 0);
      var events := Burst(256);
      forall n | 0 <= n <= |events|
        ensures Since(events, n, 0) < b
      {
        BurstSince(256, n, 0);
      }
      assert FewerThan(b, events, 0) && !NeverTruncates(NewView(LOSS_MULTIPLIER, 0), events, 0);
    }
  }
}
