/** Times in milliseconds as 8 bit codes of a mantissa and an exponent. Code (a, b) stands
    for (16 + a) * 2^b * 125 / 32 milliseconds. */
module Mantissa {
  import opened Words

  /** Times are 32 bit numbers; from this one on the code saturates. */
  const U32: nat := 0x1_0000_0000
  const LIMIT: nat := 4096000

  function Mant(me: nat): nat { me / 16 }
  function Expo(me: nat): nat { me % 16 }

  /** 32 times what a code stands for. */
  function Worth(a: nat, b: nat): nat {
    Double(125 * (16 + a), b)
  }

  /** Code me is the one that stands for the greatest time up to t, as long as there is one. */
  ghost predicate Encodes(t: nat, me: nat) {
    && me < 256
    && (t < 125 ==> me == 16)
    && (125 <= t < LIMIT ==> Expo(me) >= 1 && Worth(Mant(me), Expo(me)) <= 32 * t < Worth(Mant(me) + 1, Expo(me)))
    && (LIMIT <= t ==> me == 255)
  }

  /** me_to_reltime */
  function MeToRelTime(me: nat): nat
    requires me < 256
  {
    var a, b := Mant(me), Expo(me);
    if b >= 8 then Double(16 + a, b - 8) * 1000 else ShiftRight((16 + a) * 1000, 8 - b)
  }

  /** A greater exponent is worth more, whatever the mantissas. */
  lemma ExponentsFirst(a: nat, b: nat, a': nat, b': nat)
    requires a < 16 && b < b'
    ensures Worth(a + 1, b) <= Worth(a', b')
  {
    DoubleGrows(125 * (17 + a), 125 * 32, b);
    DoubleTwice(125 * 16, b, 1);
    DoubleTwice(125 * 16, b' - b - 1, b + 1);
    DoubleIsMore(Double(125 * 16, b + 1), b' - b - 1);
    DoubleGrows(125 * 16, 125 * (16 + a'), b');
  }

  /** No two codes encode the same time. */
  lemma EncodesOnce(t: nat, me: nat, me': nat)
    requires Encodes(t, me) && Encodes(t, me')
    ensures me == me'
  {
    if 125 <= t < LIMIT {
      var a, b, a', b' := Mant(me), Expo(me), Mant(me'), Expo(me');
      if b < b' {
        ExponentsFirst(a, b, a', b');
      } else if b' < b {
        ExponentsFirst(a', b', a, b);
      } else if a < a' {
        DoubleGrows(125 * (17 + a), 125 * (16 + a'), b);
      } else if a' < a {
        DoubleGrows(125 * (17 + a'), 125 * (16 + a), b);
      }
    }
  }

  // ----- Decoding

  /** Decoding rounds down what a code stands for. */
  lemma DecodeRoundsDown(me: nat)
    requires me < 256
    ensures 32 * MeToRelTime(me) <= Worth(Mant(me), Expo(me)) < 32 * MeToRelTime(me) + 32
    ensures Expo(me) >= 5 ==> 32 * MeToRelTime(me) == Worth(Mant(me), Expo(me))
  {
    var a, b := Mant(me), Expo(me);
    if b >= 8 {
      var x := Double(16 + a, b - 8);
      DoubleScales(125, 16 + a, b);
      DoubleTwice(16 + a, 8, b - 8);
      SmallDoubles(x);
    } else {
      SmallShift(16 + a, b);
    }
  }

  lemma SmallShift(x: nat, b: nat)
    requires b < 8
    ensures var q := ShiftRight(x * 1000, 8 - b);
      32 * q <= Double(125 * x, b) < 32 * q + 32 && (b >= 5 ==> 32 * q == Double(125 * x, b))
  {
    hide Double, ShiftRight;
    var y, q := 125 * x, ShiftRight(x * 1000, 8 - b);
    ShiftBounds(8 * y, 8 - b);
    DoubleScales(8, y, b);
    Spread(q, 8 * y, b);
    Spread(q + 1, 8 * y, b);
    if b >= 5 {
      ExactShift(y, 8 - b);
    }
  }

  /** Comparisons with shifted numbers, spread by 2^b. */
  lemma Spread(q: nat, n: nat, b: nat)
    requires b <= 8
    ensures Double(q, 8 - b) <= n ==> 256 * q <= Double(n, b)
    ensures Double(q, 8 - b) >= n ==> 256 * q >= Double(n, b)
    ensures Double(q, 8 - b) > n ==> 256 * q > Double(n, b)
  {
    DoubleTwice(q, b, 8 - b);
    SmallDoubles(q);
    if Double(q, 8 - b) <= n {
      DoubleGrows(Double(q, 8 - b), n, b);
    }
    if Double(q, 8 - b) >= n {
      DoubleGrows(n, Double(q, 8 - b), b);
    }
  }

  lemma ExactShift(y: nat, d: nat)
    requires 1 <= d <= 3
    ensures Double(ShiftRight(8 * y, d), d) == 8 * y
  {
    assert ShiftRight(8 * y, 1) == 4 * y && ShiftRight(4 * y, 1) == 2 * y && ShiftRight(2 * y, 1) == y;
    assert ShiftRight(8 * y, 2) == ShiftRight(4 * y, 1);
    assert ShiftRight(8 * y, 3) == ShiftRight(4 * y, 2) == ShiftRight(2 * y, 1);
    SmallDoubles(ShiftRight(8 * y, d));
  }

  lemma SmallDoubles(x: nat)
    ensures Double(x, 0) == x && Double(x, 1) == 2 * x && Double(x, 2) == 4 * x && Double(x, 3) == 8 * x &&
      Double(x, 4) == 16 * x
    ensures Double(x, 5) == 32 * x && Double(x, 6) == 64 * x && Double(x, 7) == 128 * x && Double(x, 8) == 256 * x
  {
    assert Double(x, 1) == 2 * x;
    assert Double(x, 3) == 8 * x;
    assert Double(x, 5) == 32 * x;
    assert Double(x, 7) == 128 * x;
  }

  // ----- Encoding

  lemma SixteenTimes(b: nat)
    requires 1 <= b
    ensures 32 * Double(125, b - 1) == Double(2000, b) && Double(125, b) == 2 * Double(125, b - 1)
  {
    SmallDoubles(125);
    SmallDoubles(Double(125, b - 1));
    DoubleTwice(125, 5, b - 1);
    DoubleTwice(125, b, 4);
  }

  /** With exponent b, a quotient of what is above the least time is the mantissa. */
  lemma QuotientIsMantissa(t: nat, b: nat, q: nat)
    requires 1 <= b && Double(125, b - 1) <= t < Double(125, b)
    requires Double(125 * q, b) <= 32 * (t - Double(125, b - 1)) < Double(125 * (q + 1), b)
    ensures q < 16 && Worth(q, b) <= 32 * t < Worth(q + 1, b)
  {
    SixteenTimes(b);
    hide Double;
    DoubleAdds(2000, 125 * q, b);
    DoubleAdds(2000, 125 * (q + 1), b);
    if q >= 16 {
      DoubleGrows(2000, 125 * q, b);
    }
  }

  lemma LargeMantissa(t: nat, b: nat, q: nat)
    requires 5 <= b && Double(125, b - 1) <= t < Double(125, b)
    requires q * Double(125, b - 5) <= t - Double(125, b - 1) < q * Double(125, b - 5) + Double(125, b - 5)
    ensures q < 16 && Worth(q, b) <= 32 * t < Worth(q + 1, b)
  {
    DoubleScales(q, 125, b - 5);
    DoubleAdds(q * 125, 125, b - 5);
    DoubleTwice(125 * q, 5, b - 5);
    DoubleTwice(125 * (q + 1), 5, b - 5);
    SmallDoubles(Double(125 * q, b - 5));
    SmallDoubles(Double(125 * (q + 1), b - 5));
    QuotientIsMantissa(t, b, q);
  }

  lemma SmallMantissa(t: nat, b: nat, q: nat)
    requires 1 <= b <= 5 && Double(125, b - 1) <= t < Double(125, b)
    requires 125 * q <= (t - Double(125, b - 1)) * Double(1, 5 - b) < 125 * q + 125
    ensures q < 16 && Worth(q, b) <= 32 * t < Worth(q + 1, b)
  {
    var n := t - Double(125, b - 1);
    DoubleScales(n, 1, 5 - b);
    DoubleTwice(n, b, 5 - b);
    SmallDoubles(n);
    DoubleGrows(125 * q, Double(n, 5 - b), b);
    DoubleGrows(Double(n, 5 - b), 125 * (q + 1), b);
    QuotientIsMantissa(t, b, q);
  }

  /** The exponent that the loop finds brackets the time. */
  lemma Bracket(t: nat, b: nat)
    requires Double(1, b) <= t / 125 * 2 < Double(1, b + 1)
    ensures 1 <= b && Double(125, b - 1) <= t < Double(125, b)
    ensures t >= 125 && (b > 15 <==> t >= LIMIT)
  {
    if b > 0 {
      DoubleIsMore(125, b - 1);
      DoubleScales(125, 1, b);
      DoubleScales(125, 1, b - 1);
      SmallDoubles(125);
      SmallDoubles(32000);
      DoubleTwice(125, 7, 8);
      assert Double(125, 15) == LIMIT;
      if b > 15 {
        DoubleTwice(125, b - 16, 15);
        DoubleIsMore(LIMIT, b - 16);
      } else {
        DoubleTwice(125, 15 - b, b);
        DoubleIsMore(Double(125, b), 15 - b);
      }
    }
  }

  /** What the two formulas of reltime_to_me give for the mantissa. */
  method ComputeMantissa(interval: nat, b: nat) returns (a: nat)
    requires 1 <= b && Double(125, b - 1) <= interval < Double(125, b)
    ensures a < 16 && Worth(a, b) <= 32 * interval < Worth(a + 1, b)
  {
    if b >= 5 {
      DoubleIsMore(125, b - 5);
      a := Quotient(interval - Double(125, b - 1), Double(125, b - 5));
      LargeMantissa(interval, b, a);
    } else {
      a := Quotient((interval - Double(125, b - 1)) * Double(1, 5 - b), 125);
      SmallMantissa(interval, b, a);
    }
  }

  function Quotient(n: nat, d: nat): (q: nat)
    requires 0 < d
    ensures q * d <= n < q * d + d
  {
    n / d
  }

  lemma Packs(a: nat, b: nat)
    requires a < 16 && b < 16
    ensures var me := 16 * a + b; me < 256 && Mant(me) == a && Expo(me) == b
  {
  }

  lemma BigShift(k: nat)
    ensures Double(1, k + 27) >= 0x800_0000
  {
    SmallDoubles(1);
    SmallDoubles(256);
    SmallDoubles(65536);
    DoubleTwice(1, 8, 8);
    DoubleTwice(1, 8, 16);
    DoubleTwice(1, 3, 24);
    SmallDoubles(0x100_0000);
    DoubleTwice(1, k, 27);
    DoubleIsMore(0x800_0000, k);
  }

  lemma FewShifts(b: nat, n: nat)
    requires Double(1, b) <= n < 0x800_0000
    ensures b < 27
  {
    hide Double;
    if b >= 27 {
      BigShift(b - 27);
    }
  }

  /** The loop of reltime_to_me; no shift exceeds the width of a word. */
  method FindExponent(unscaled: nat) returns (b: nat)
    requires unscaled < 0x800_0000
    ensures if b == 0 then unscaled == 0 else Double(1, b - 1) <= unscaled < Double(1, b)
  {
    b := 0;
    while unscaled >= Double(1, b)
      invariant b <= 27 && (b > 0 ==> Double(1, b - 1) <= unscaled)
      decreases unscaled + 1 - Double(1, b)
    {
      FewShifts(b, unscaled);
      DoubleIsMore(1, b);
      b := b + 1;
    }
  }

  /** reltime_to_me */
  method RelTimeToMe(interval: nat) returns (me: nat)
    requires interval < U32
    ensures Encodes(interval, me)
  {
    hide Double, Worth;
    var b := FindExponent(interval / 125 * 2);
    var a;
    if b == 0 {
      a, b := 1, 0;
    } else {
      b := b - 1;
      Bracket(interval, b);
      if b > 15 {
        a, b := 15, 15;
      } else {
        a := ComputeMantissa(interval, b);
        b := b + a / 16;
        a := a % 16;
      }
    }
    Packs(a, b);
    me := 16 * a + b % 16;
  }

  // ----- Round trips

  /** What comes back for a time is not more than the time and less than a sixteenth and a
      millisecond below it; very short and very long times come back as constants. */
  lemma DecodedIsClose(t: nat, me: nat)
    requires Encodes(t, me)
    ensures 125 <= t < LIMIT ==> MeToRelTime(me) <= t && 16 * t < 17 * (MeToRelTime(me) + 1)
    ensures t < 125 ==> MeToRelTime(me) == 66
    ensures LIMIT <= t ==> MeToRelTime(me) == 3968000
  {
    DecodeRoundsDown(me);
    if t < 125 {
      SmallDoubles(2125);
    } else if t < LIMIT {
      var a, b := Mant(me), Expo(me);
      DoubleAdds(125 * (16 + a), 125, b);
      DoubleScales(16, 125, b);
      DoubleGrows(16 * 125, 125 * (16 + a), b);
    } else {
      GreatestWorth();
    }
  }

  lemma GreatestWorth()
    ensures Worth(15, 15) == 32 * 3968000
  {
    SmallDoubles(3875);
    SmallDoubles(992000);
    DoubleTwice(3875, 7, 8);
  }

  /** No code with a value up to t is worth more than the one that encodes t. */
  lemma EncodesGreatest(t: nat, me: nat, other: nat)
    requires 125 <= t < LIMIT && Encodes(t, me) && other < 256 && Worth(Mant(other), Expo(other)) <= 32 * t
    ensures Worth(Mant(other), Expo(other)) <= Worth(Mant(me), Expo(me))
  {
    var a, b, a', b' := Mant(me), Expo(me), Mant(other), Expo(other);
    if b < b' {
      ExponentsFirst(a, b, a', b');
    } else if b' < b {
      ExponentsFirst(a', b', a, b);
      DoubleGrows(125 * (16 + a'), 125 * (17 + a'), b');
    } else if a' > a {
      DoubleGrows(125 * (17 + a), 125 * (16 + a'), b);
    } else {
      DoubleGrows(125 * (16 + a'), 125 * (16 + a), b);
    }
  }

  /** A longer time never comes back shorter. */
  lemma RoundTripGrows(t: nat, me: nat, t': nat, me': nat)
    requires t <= t' && Encodes(t, me) && Encodes(t', me')
    ensures MeToRelTime(me) <= MeToRelTime(me')
  {
    DecodedIsClose(t, me);
    DecodedIsClose(t', me');
    DecodeRoundsDown(me);
    DecodeRoundsDown(me');
    if 125 <= t && t' < LIMIT {
      EncodesGreatest(t', me', me);
    } else if t < 125 {
      if 125 <= t' < LIMIT {
        AtLeast(me', t');
      }
    } else if t < LIMIT {
      GreatestWorth();
      EveryWorth(me);
    }
  }

  lemma EveryWorth(me: nat)
    requires me < 256
    ensures Worth(Mant(me), Expo(me)) <= Worth(15, 15)
  {
    var a, b := Mant(me), Expo(me);
    if b < 15 {
      ExponentsFirst(a, b, 15, 15);
      DoubleGrows(125 * (16 + a), 125 * (17 + a), b);
    } else {
      DoubleGrows(125 * (16 + a), 125 * 31, 15);
    }
  }

  lemma AtLeast(me: nat, t: nat)
    requires Encodes(t, me) && 125 <= t < LIMIT
    ensures MeToRelTime(me) >= 66
  {
    DecodedIsClose(t, me);
  }

  /** A code comes back from its own time exactly when nothing is rounded off, which is so for
      all exponents from 5 on, or when it is the least code. */
  lemma CodeRoundTrip(me: nat)
    requires me < 256
    ensures Encodes(MeToRelTime(me), me) <==> me == 16 || Double(16 + Mant(me), Expo(me)) % 32 == 0
    ensures Expo(me) >= 5 ==> Encodes(MeToRelTime(me), me)
  {
    hide Encodes, MeToRelTime, Double;
    var a, b, t := Mant(me), Expo(me), MeToRelTime(me);
    DecodeRoundsDown(me);
    DoubleScales(125, 16 + a, b);
    OddFactor(Double(16 + a, b), t);
    if 32 * t == Worth(a, b) {
      ExactCode(me, t);
    } else {
      InexactCode(me, t);
    }
  }

  lemma ExactCode(me: nat, t: nat)
    requires me < 256 && 32 * t == Worth(Mant(me), Expo(me))
    ensures Encodes(t, me)
  {
    var a, b := Mant(me), Expo(me);
    SmallDoubles(125 * (16 + a));
    hide Double;
    GreatestWorth();
    EveryWorth(me);
    DoubleGrows(125 * (16 + a), 125 * (17 + a), b);
    LeastWorth(a, b);
  }

  lemma LeastWorth(a: nat, b: nat)
    requires 1 <= b
    ensures Worth(a, b) >= 32 * 125
  {
    SixteenTimes(b);
    DoubleIsMore(125, b - 1);
    DoubleGrows(2000, 125 * (16 + a), b);
  }

  lemma InexactCode(me: nat, t: nat)
    requires me < 256 && t == MeToRelTime(me) && 32 * t < Worth(Mant(me), Expo(me))
    ensures Encodes(t, me) <==> me == 16
  {
    GreatestWorth();
    EveryWorth(me);
    if me == 16 {
      LeastCode();
    }
  }

  lemma LeastCode()
    ensures MeToRelTime(16) == 66
  {
    DecodeRoundsDown(16);
    SmallDoubles(2125);
  }

  lemma OddFactor(x: nat, t: nat)
    ensures 32 * t == 125 * x ==> x % 32 == 0
    ensures x % 32 == 0 && 32 * t <= 125 * x < 32 * t + 32 ==> 32 * t == 125 * x
  {
    if 32 * t == 125 * x {
      assert x == 32 * (21 * t - 82 * x);
    }
    if x % 32 == 0 {
      assert 125 * x == 32 * (125 * (x / 32));
    }
  }
}
