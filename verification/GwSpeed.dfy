/** The one-byte code for gateway speeds: five bits of mantissa, three bits of decimal
    exponent. */
module GwSpeed {
  const MAX_SMARTGW_SPEED: nat := 320000000

  /** m with d decimal zeros behind it. */
  function Scale(m: nat, d: nat): (r: nat)
    ensures m > 0 ==> r > 0
  {
    if d == 0 then m else 10 * Scale(m, d - 1)
  }

  /** What is left of a speed after dividing by ten as often as the encoder does. */
  datatype Reduced = Reduced(m: nat, exp: nat)

  function Reduce(s: nat, exp: nat): Reduced
    decreases 7 - exp
  {
    if (s > 32 || s % 10 == 0) && exp < 7 then Reduce(s / 10, exp + 1) else Reduced(s, exp)
  }

  function Encode(s: nat): nat {
    if s == 0 then 0
    else
      var t := if s == 1 then 2 else s;
      if t >= MAX_SMARTGW_SPEED then 255
      else
        var r := Reduce(t, 0);
        if r.m == 0 then 0 else (r.m - 1) * 8 + r.exp
  }

  function Decode(v: nat): nat {
    if v == 0 then 0 else if v == 255 then MAX_SMARTGW_SPEED else Scale(v / 8 + 1, v % 8)
  }

  method Serialize(speed: nat) returns (value: nat)
    ensures value == Encode(speed) && value < 256
  {
    var s, exp := speed, 0;
    if s == 0 {
      return 0;
    }
    if s == 1 {
      s := s + 1;
    }
    if s >= MAX_SMARTGW_SPEED {
      return 255;
    }
    ghost var t := s;
    while (s > 32 || s % 10 == 0) && exp < 7
      invariant 0 <= s && exp <= 7 && Reduce(t, 0) == Reduce(s, exp)
    {
      s := s / 10;
      exp := exp + 1;
    }
    MaxIsScale();
    ReduceFits(t, 0);
    value := (s - 1) * 8 + exp;
  }

  method Deserialize(value: nat) returns (speed: nat)
    requires value < 256
    ensures speed == Decode(value) <= MAX_SMARTGW_SPEED
  {
    DecodeBound(value);
    if value == 0 {
      return 0;
    }
    if value == 255 {
      return MAX_SMARTGW_SPEED;
    }
    speed := value / 8 + 1;
    var exp := value % 8;
    ghost var m := speed;
    while exp > 0
      invariant 0 <= exp <= value % 8 && speed == Scale(m, value % 8 - exp)
    {
      speed := speed * 10;
      exp := exp - 1;
    }
  }

  lemma {:induction false} ScaleMonotone(m: nat, n: nat, d: nat)
    requires m <= n
    ensures Scale(m, d) <= Scale(n, d)
  {
    if d > 0 {
      ScaleMonotone(m, n, d - 1);
    }
  }

  lemma {:induction false} ScaleTimes(m: nat, d: nat)
    ensures Scale(3 * m, d) == 3 * Scale(m, d) && Scale(4 * m, d) == 4 * Scale(m, d)
  {
    if d > 0 {
      ScaleTimes(m, d - 1);
    }
  }

  lemma {:induction false} ScaleStep(m: nat, d: nat)
    ensures Scale(10 * m, d) == Scale(m, d + 1)
  {
    if d > 0 {
      ScaleStep(m, d - 1);
    }
  }

  /** The encoder stops with a mantissa that fits. */
  lemma {:induction false} ReduceFits(s: nat, e: nat)
    requires s > 0 && e <= 7 && s < Scale(32, 7 - e)
    ensures var r := Reduce(s, e);
      e <= r.exp <= 7 && 1 <= r.m <= 32 && (r.exp == 7 ==> r.m < 32) && (r.exp < 7 ==> r.m % 10 != 0)
    decreases 7 - e
  {
    if (s > 32 || s % 10 == 0) && e < 7 {
      ReduceFits(s / 10, e + 1);
    }
  }

  /** The reduced speed is the original one, cut off; and either at least three is left or the
      last division was exact. */
  lemma {:induction false} ReduceBounds(s: nat, e: nat)
    requires s > 0 && e <= 7
    ensures var r := Reduce(s, e);
      && e <= r.exp <= 7
      && Scale(r.m, r.exp - e) <= s < Scale(r.m + 1, r.exp - e)
      && (r.m >= 3 || r.exp == e || s < Scale(10 * r.m + 1, r.exp - e - 1))
    decreases 7 - e
  {
    hide Reduce;
    ReduceStep(s, e);
    if (s > 32 || s % 10 == 0) && e < 7 {
      var q := s / 10;
      assert 10 * q <= s <= 10 * q + 9 && q > 0;
      ReduceStep(q, e + 1);
      ReduceBounds(q, e + 1);
    }
  }

  lemma ReduceStep(s: nat, e: nat)
    requires e <= 7
    ensures Reduce(s, e) == if (s > 32 || s % 10 == 0) && e < 7 then Reduce(s / 10, e + 1) else Reduced(s, e)
    ensures Reduce(s, e).exp >= e && (Reduce(s, e).exp == e ==> Reduce(s, e).m == s)
    decreases 7 - e
  {
    if (s > 32 || s % 10 == 0) && e < 7 {
      ReduceStep(s / 10, e + 1);
    }
  }

  /** Less than a quarter of the speed is lost. */
  lemma CutOff(s: nat)
    requires 0 < s < MAX_SMARTGW_SPEED
    ensures var r := Reduce(s, 0);
      Scale(r.m, r.exp) <= s && 3 * s < 4 * Scale(r.m, r.exp)
  {
    hide Reduce, Scale;
    ReduceBounds(s, 0);
    var r := Reduce(s, 0);
    if r.exp == 0 {
      ScaleNothing(r.m);
      ScaleNothing(r.m + 1);
    } else if r.m >= 3 {
      ScaleTimes(r.m, r.exp);
      ScaleTimes(r.m + 1, r.exp);
      ScaleMonotone(3 * (r.m + 1), 4 * r.m, r.exp);
    } else {
      MaxIsScale();
      ReduceFits(s, 0);
      ScaleStep(4 * r.m, r.exp - 1);
      ScaleTimes(r.m, r.exp);
      ScaleTimes(10 * r.m + 1, r.exp - 1);
      ScaleMonotone(3 * (10 * r.m + 1), 10 * (4 * r.m), r.exp - 1);
    }
  }

  lemma ScaleNothing(m: nat)
    ensures Scale(m, 0) == m
  {
  }

  lemma MaxIsScale()
    ensures Scale(32, 7) == MAX_SMARTGW_SPEED
  {
    assert Scale(32, 3) == 32000;
    assert Scale(32, 5) == 3200000;
  }

  lemma {:induction false} ReduceScale(m: nat, d: nat, e: nat)
    requires m <= 32 && e + d <= 7 && (e + d == 7 || m % 10 != 0)
    ensures Reduce(Scale(m, d), e) == Reduced(m, e + d)
    decreases d
  {
    if d > 0 {
      ReduceScale(m, d - 1, e + 1);
    }
  }

  lemma {:induction false} ScaleBound(m: nat, d: nat)
    requires m <= 32 && d <= 7
    ensures Scale(m, d) <= MAX_SMARTGW_SPEED
    ensures m < 32 || d < 7 ==> Scale(m, d) < MAX_SMARTGW_SPEED
  {
    MaxIsScale();
    ScaleMonotone(m, 32, d);
    ScaleUp(32, d, 7);
    ScaleStrict(m, 32, d);
  }

  lemma {:induction false} ScaleStrict(m: nat, n: nat, d: nat)
    ensures m < n ==> Scale(m, d) < Scale(n, d)
  {
    if d > 0 {
      ScaleStrict(m, n, d - 1);
    }
  }

  lemma {:induction false} ScaleUp(m: nat, d: nat, e: nat)
    requires d <= e
    ensures Scale(m, d) <= Scale(m, e) && (d < e && m > 0 ==> Scale(m, d) < Scale(m, e))
  {
    if d < e {
      ScaleUp(m, d, e - 1);
    }
  }

  /** Encoding loses less than a quarter, and nothing the second time. */
  lemma EncodeDecode(s: nat)
    requires 2 <= s < MAX_SMARTGW_SPEED
    ensures var d := Decode(Encode(s));
      d <= s && 4 * d > 3 * s && Encode(d) == Encode(s) && 0 < Encode(s) < 255
  {
    hide Reduce, Scale;
    MaxIsScale();
    ScaleNothing(1);
    ReduceFits(s, 0);
    CutOff(s);
    var r := Reduce(s, 0);
    var v := Encode(s);
    assert v == (r.m - 1) * 8 + r.exp;
    assert v / 8 == r.m - 1 && v % 8 == r.exp;
    ScaleBound(r.m, r.exp);
    ReduceScale(r.m, r.exp, 0);
  }

  /** The two reserved codes. */
  lemma ReservedCodes(s: nat)
    ensures Encode(s) == 0 <==> s == 0
    ensures Encode(s) == 255 <==> s >= MAX_SMARTGW_SPEED
  {
    if 2 <= s < MAX_SMARTGW_SPEED {
      EncodeDecode(s);
    } else if s == 1 {
      EncodeDecode(2);
    }
  }

  lemma DecodeBound(v: nat)
    requires v < 256
    ensures Decode(v) <= MAX_SMARTGW_SPEED
  {
    ScaleBound(v / 8 + 1, v % 8);
  }

  /** The codes that the encoder can produce from their own speed are the reserved ones and
      those whose mantissa is no multiple of ten unless the exponent is at its limit. */
  lemma CanonicalCodes(v: nat)
    requires v < 256
    ensures Encode(Decode(v)) == v <==> v == 0 || v == 255 || v % 8 == 7 || (v / 8 + 1) % 10 != 0
  {
    if v != 0 && v != 255 {
      hide Reduce, Scale;
      var m, e := v / 8 + 1, v % 8;
      ScaleNothing(m);
      ScaleBound(m, e);
      ScaleMonotone(1, m, e);
      ScaleUp(m, 0, e);
      if e == 7 || m % 10 != 0 {
        ReduceScale(m, e, 0);
      } else {
        ScaleStep(m / 10, e);
        ReduceScale(m / 10, e + 1, 0);
      }
    }
  }
}
