/** Complete binary trees in level order: node i has the children 2i + 1 and 2i + 2. */
module HeapShape {
  import opened Words

  function Up(i: nat): nat
    requires i > 0
  {
    (i - 1) / 2
  }

  /** Going left from a leads to n. */
  predicate LeftTo(a: nat, n: nat)
    decreases n - a
  {
    if n <= a then n == a else LeftTo(2 * a + 1, n)
  }

  /** Going right from a leads to n. */
  predicate RightTo(a: nat, n: nat)
    decreases n - a
  {
    if n <= a then n == a else RightTo(2 * a + 2, n)
  }

  ghost predicate IsPow2(n: nat) {
    exists m: nat :: n == Pow2(m)
  }

  /** The first place of a level is reached by going left from the root. */
  lemma {:induction false} SpineLeft(j: nat, m: nat)
    requires j <= m
    ensures LeftTo(Pow2(j) - 1, Pow2(m) - 1)
    decreases m - j
  {
    if j < m {
      SpineLeft(j + 1, m);
      PowersGrow(j, m);
    }
  }

  /** The last place of a level is reached by going right from the root. */
  lemma {:induction false} SpineRight(j: nat, m: nat)
    requires 1 <= j <= m
    ensures RightTo(Pow2(j) - 2, Pow2(m) - 2)
    decreases m - j
  {
    if j < m {
      SpineRight(j + 1, m);
      PowersGrow(j, m);
    }
  }

  lemma {:induction false} PowersGrow(j: nat, m: nat)
    requires j < m
    ensures Pow2(j) < Pow2(m)
  {
    if j + 1 < m {
      PowersGrow(j, m - 1);
    }
  }

  /** Nothing but the first places of levels is reached by going left from the root. */
  lemma {:induction false} LeftSpine(j: nat, n: nat)
    requires LeftTo(Pow2(j) - 1, n)
    ensures IsPow2(n + 1)
    decreases n - Pow2(j)
  {
    if n > Pow2(j) - 1 {
      LeftSpine(j + 1, n);
    } else {
      assert n + 1 == Pow2(j);
    }
  }

  /** The first place of a new level lies left below the root. */
  lemma NewLevel(n: nat)
    requires IsPow2(n + 1)
    ensures LeftTo(0, n) && (n > 1 ==> RightTo(0, n - 1))
  {
    var m: nat :| n + 1 == Pow2(m);
    SpineLeft(0, m);
    if m >= 1 {
      SpineRight(1, m);
    }
  }

  /** A place that is not first in its level is not on the left spine. */
  lemma OffSpine(k: nat, n: nat)
    requires LeftTo(k, n) && !IsPow2(n + 1)
    ensures k >= 2
  {
    if k <= 1 {
      assert Pow2(k) == k + 1;
      LeftSpine(k, n);
    }
  }

  /** heap_perfect_log2: how far a number is above the greatest power of 2 in it. */
  method PerfectLog2(number: nat) returns (r: nat)
    requires number > 0
    ensures r == 0 <==> IsPow2(number)
  {
    var n: nat, log: nat := number / 2, 0;
    while n > 0
      invariant Double(n, log + 1) <= number < Double(n + 1, log + 1)
      invariant Pow2(log) <= number
    {
      DoubleGrows(1, n, log + 1);
      DoubleIsProduct(1, log + 1);
      DoubleGrows(2 * (n / 2), n, log + 1);
      DoubleGrows(n + 1, 2 * (n / 2 + 1), log + 1);
      DoubleScales(2, n / 2, log + 1);
      DoubleScales(2, n / 2 + 1, log + 1);
      n, log := n / 2, log + 1;
    }
    DoubleIsProduct(1, log + 1);
    Between(number, log);
    r := number - Pow2(log);
  }

  lemma Between(n: nat, log: nat)
    requires Pow2(log) <= n < Pow2(log + 1)
    ensures n == Pow2(log) <==> IsPow2(n)
  {
    if m: nat :| n == Pow2(m) {
      if m < log {
        PowersGrow(m, log);
      } else if m > log + 1 {
        PowersGrow(log + 1, m);
      }
    }
  }

  // ----- Order

  /** The key at place i is not less than the one above it. */
  predicate Below(ks: seq<nat>, i: nat)
    requires i < |ks|
  {
    i > 0 ==> ks[Up(i)] <= ks[i]
  }

  ghost predicate HeapOrder(ks: seq<nat>) {
    forall i :: 0 <= i < |ks| ==> Below(ks, i)
  }

  /** Below a place is what is not less than what is above it. */
  ghost predicate Bridged(ks: seq<nat>, k: nat)
    requires k < |ks|
  {
    forall c: nat :: 0 < c < |ks| && Up(c) == k && k > 0 ==> ks[Up(k)] <= ks[c]
  }

  /** Only place k may be less than the one above it. */
  ghost predicate RisenAt(ks: seq<nat>, k: nat) {
    k < |ks| && Bridged(ks, k) && forall i :: 0 <= i < |ks| && i != k ==> Below(ks, i)
  }

  /** Only the places below k may be less than it. */
  ghost predicate SunkAt(ks: seq<nat>, k: nat) {
    k < |ks| && Bridged(ks, k) && forall i: nat :: 0 < i < |ks| && Up(i) != k ==> Below(ks, i)
  }

  function SwapKeys(ks: seq<nat>, p: nat, i: nat): seq<nat>
    requires p < |ks| && i < |ks|
  {
    ks[p := ks[i]][i := ks[p]]
  }

  /** A key that is less than the one above it goes up. */
  lemma RiseStep(ks: seq<nat>, k: nat)
    requires RisenAt(ks, k) && k > 0 && ks[Up(k)] > ks[k]
    ensures RisenAt(SwapKeys(ks, Up(k), k), Up(k))
  {
    var p, after := Up(k), SwapKeys(ks, Up(k), k);
    forall i | 0 <= i < |ks| && i != p
      ensures Below(after, i)
    {
      assert i != k ==> Below(ks, i);
    }
    forall c: nat | 0 < c < |ks| && Up(c) == p && p > 0
      ensures after[Up(p)] <= after[c]
    {
      assert Below(ks, p) && (c != k ==> Below(ks, c));
    }
  }

  lemma RiseEnd(ks: seq<nat>, k: nat)
    requires RisenAt(ks, k) && Below(ks, k)
    ensures HeapOrder(ks)
  {
  }

  /** A key that is greater than one below it goes down, and the least key below goes up. */
  lemma SinkStep(ks: seq<nat>, k: nat, c: nat)
    requires SunkAt(ks, k) && 0 < c < |ks| && Up(c) == k && ks[c] < ks[k]
    requires forall d: nat :: 0 < d < |ks| && Up(d) == k ==> ks[c] <= ks[d]
    ensures SunkAt(SwapKeys(ks, k, c), c)
  {
    var after := SwapKeys(ks, k, c);
    forall i: nat | 0 < i < |ks| && Up(i) != c
      ensures Below(after, i)
    {
      if Up(i) != k && i != k {
        assert Below(ks, i);
      }
    }
    forall d: nat | 0 < d < |ks| && Up(d) == c
      ensures after[k] <= after[d]
    {
      assert Below(ks, d);
    }
  }

  lemma Children(n: nat, k: nat)
    ensures forall c: nat :: 0 < c < n && Up(c) == k <==> 0 < c < n && (c == 2 * k + 1 || c == 2 * k + 2)
  {
  }

  lemma SinkLeast(ks: seq<nat>, k: nat, c: nat)
    requires SunkAt(ks, k) && (c == 2 * k + 1 || c == 2 * k + 2) && c < |ks| && ks[c] < ks[k]
    requires ks[c] <= ks[2 * k + 1] && (2 * k + 2 < |ks| ==> ks[c] <= ks[2 * k + 2])
    ensures Up(c) == k && SunkAt(SwapKeys(ks, k, c), c)
  {
    Children(|ks|, k);
    hide SunkAt;
    SinkStep(ks, k, c);
  }

  lemma SinkEnd(ks: seq<nat>, k: nat)
    requires SunkAt(ks, k) && forall c: nat :: 0 < c < |ks| && Up(c) == k ==> ks[k] <= ks[c]
    ensures HeapOrder(ks)
  {
    forall i | 0 <= i < |ks|
      ensures Below(ks, i)
    {
    }
  }

  lemma SinkDone(ks: seq<nat>, k: nat)
    requires SunkAt(ks, k)
    requires (2 * k + 1 < |ks| ==> ks[k] <= ks[2 * k + 1]) && (2 * k + 2 < |ks| ==> ks[k] <= ks[2 * k + 2])
    ensures HeapOrder(ks)
  {
    Children(|ks|, k);
    SinkEnd(ks, k);
  }

  /** The least key is at the root. */
  lemma {:induction false} RootIsLeast(ks: seq<nat>, i: nat)
    requires HeapOrder(ks) && i < |ks|
    ensures ks[0] <= ks[i]
  {
    if i > 0 {
      assert Below(ks, i);
      RootIsLeast(ks, Up(i));
    }
  }

  /** A key that is put at the end may only be less than the one above it. */
  lemma AppendRisen(ks: seq<nat>, x: nat)
    requires HeapOrder(ks)
    ensures RisenAt(ks + [x], |ks|)
  {
    forall i | 0 <= i < |ks|
      ensures Below(ks + [x], i)
    {
      assert Below(ks, i);
    }
  }

  /** When any key replaces the one at the root, it may only be greater than those below. */
  lemma ReplaceSunk(ks: seq<nat>, x: nat)
    requires HeapOrder(ks) && |ks| > 1
    ensures SunkAt(ks[..|ks| - 1][0 := x], 0)
  {
    var after := ks[..|ks| - 1][0 := x];
    forall i: nat | 0 < i < |after| && Up(i) != 0
      ensures Below(after, i)
    {
      assert Below(ks, i);
    }
  }

  /** A key that became less may only be less than the one above it. */
  lemma LessRisen(ks: seq<nat>, i: nat, x: nat)
    requires HeapOrder(ks) && i < |ks| && x <= ks[i]
    ensures RisenAt(ks[i := x], i)
  {
    var after := ks[i := x];
    forall j | 0 <= j < |ks| && j != i
      ensures Below(after, j)
    {
      assert Below(ks, j);
    }
    forall c: nat | 0 < c < |ks| && Up(c) == i && i > 0
      ensures after[Up(i)] <= after[c]
    {
      assert Below(ks, i) && Below(ks, c);
    }
  }
}
