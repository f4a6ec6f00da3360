/** The border flag between two adjacent LQ TC fragments. */
module Borders {
  import opened Framing
  import opened Words

  /** An address as a number, in network byte order. */
  function Value(a: seq<Byte>): nat {
    if a == [] then 0 else Value(a[..|a| - 1]) * 256 + a[|a| - 1]
  }

  /** The bits above k are the same, bit k differs. */
  ghost predicate TopDifference(l: nat, h: nat, k: nat) {
    (forall i :: i > k ==> (Bit(l, i) <==> Bit(h, i))) && Bit(l, k) != Bit(h, k)
  }

  /** All bits below k are cleared: the bitwise and with a mask of all bits from k on. */
  function ClearBelow(a: nat, k: nat): nat {
    Double(ShiftRight(a, k), k)
  }

  lemma {:induction false} ShrBits(a: nat, n: nat, i: nat)
    ensures Bit(ShiftRight(a, n), i) <==> Bit(a, i + n)
  {
    if n > 0 {
      ShrBits(a / 2, n - 1, i);
    }
  }

  lemma {:induction false} SameBitsSameNumber(x: nat, y: nat)
    requires forall i: nat :: Bit(x, i) <==> Bit(y, i)
    ensures x == y
    decreases x + y
  {
    assert Bit(x, 0) <==> Bit(y, 0);
    if x + y > 0 {
      forall i: nat
        ensures Bit(x / 2, i) <==> Bit(y / 2, i)
      {
        assert Bit(x, i + 1) <==> Bit(y, i + 1);
      }
      SameBitsSameNumber(x / 2, y / 2);
    }
  }

  lemma {:induction false} ShrStep(a: nat, k: nat)
    ensures ShiftRight(a, k + 1) == ShiftRight(a, k) / 2
  {
    if k > 0 {
      ShrStep(a / 2, k - 1);
    }
  }

  lemma {:induction false} ShrMonotone(l: nat, h: nat, k: nat)
    requires l <= h
    ensures ShiftRight(l, k) <= ShiftRight(h, k)
  {
    if k > 0 {
      ShrMonotone(l / 2, h / 2, k - 1);
    }
  }

  lemma {:induction false} ShrSmall(x: nat, w: nat)
    requires x < Pow2(w)
    ensures ShiftRight(x, w) == 0
  {
    if w > 0 {
      ShrSmall(x / 2, w - 1);
    }
  }

  lemma {:induction false} DoubleInjective(x: nat, y: nat, k: nat)
    requires Double(x, k) == Double(y, k)
    ensures x == y
  {
    if k > 0 {
      DoubleInjective(x, y, k - 1);
    }
  }

  /** For l below h, clearing the bits of h below the top difference gives a number that still
      separates the two: it is above l and not above h. */
  lemma BorderSeparates(l: nat, h: nat, k: nat)
    requires TopDifference(l, h, k) && l < h
    ensures l < ClearBelow(h, k) <= h
  {
    var x, y := ShiftRight(l, k), ShiftRight(h, k);
    ShrStep(l, k);
    ShrStep(h, k);
    forall i: nat
      ensures Bit(x / 2, i) <==> Bit(y / 2, i)
    {
      ShrBits(l, k + 1, i);
      ShrBits(h, k + 1, i);
    }
    SameBitsSameNumber(x / 2, y / 2);
    ShrBits(l, k, 0);
    ShrBits(h, k, 0);
    ShrMonotone(l, h, k);
    assert y == x + 1;
    ShiftBounds(l, k);
    ShiftBounds(h, k);
  }

  /** Appending a word of w bits below a number. */
  lemma {:induction false} AppendBits(v: nat, x: nat, w: nat, i: nat)
    requires x < Pow2(w)
    ensures Bit(v * Pow2(w) + x, i) <==> if i < w then Bit(x, i) else Bit(v, i - w)
  {
    if w == 0 {
      assert v * Pow2(w) + x == v;
    } else {
      var t := v * Pow2(w - 1);
      assert v * Pow2(w) + x == 2 * t + x;
      if i > 0 {
        assert (2 * t + x) / 2 == t + x / 2;
        AppendBits(v, x / 2, w - 1, i - 1);
      }
    }
  }

  /** Bit b of the j-th byte from the end. */
  lemma {:induction false} ValueBits(a: seq<Byte>, i: nat)
    ensures Bit(Value(a), i) <==> i < 8 * |a| && Bit(a[|a| - 1 - i / 8], i % 8)
  {
    if a == [] {
      ZeroBits(i);
    } else {
      var init, x := a[..|a| - 1], a[|a| - 1];
      assert Pow2(8) == 256;
      AppendBits(Value(init), x, 8, i);
      if i >= 8 {
        ValueBits(init, i - 8);
        assert (i - 8) / 8 == i / 8 - 1 && (i - 8) % 8 == i % 8;
      }
    }
  }

  /** calculate_border_flag: 0 for equal addresses, else one plus the index of the top bit in
      which the two addresses differ. */
  method CalculateBorderFlag(lower: seq<Byte>, higher: seq<Byte>) returns (flag: nat)
    requires |lower| == |higher|
    ensures flag == 0 <==> lower == higher
    ensures flag > 0 ==> flag <= 8 * |lower| && TopDifference(Value(lower), Value(higher), flag - 1)
  {
    var part := 0;
    while part < |lower|
      invariant part <= |lower| && lower[..part] == higher[..part]
    {
      if lower[part] != higher[part] {
        break;
      }
      part := part + 1;
    }
    if part == |lower| {
      assert lower == lower[..part] && higher == higher[..part];
      return 0;
    }
    var l, h := lower[part], higher[part];
    HighestDiffers(l, h);
    var bitpos := 0;
    while bitpos < 8
      invariant bitpos <= 7 && ClearBelow(l, bitpos) != ClearBelow(h, bitpos)
    {
      if ClearBelow(l, bitpos + 1) == ClearBelow(h, bitpos + 1) {
        break;
      }
      bitpos := bitpos + 1;
    }
    TopBitOfByte(l, h, bitpos);
    TopBitOfAddress(lower, higher, part, bitpos);
    bitpos := bitpos + 8 * (|lower| - part - 1);
    flag := bitpos + 1;
  }

  lemma HighestDiffers(l: Byte, h: Byte)
    requires l != h
    ensures ClearBelow(l, 0) != ClearBelow(h, 0) && ClearBelow(l, 8) == ClearBelow(h, 8)
  {
    assert Pow2(8) == 256;
    ShrSmall(l, 8);
    ShrSmall(h, 8);
  }

  /** The mask that still sees a difference ends exactly at the top differing bit. */
  lemma TopBitOfByte(l: Byte, h: Byte, b: nat)
    requires ClearBelow(l, b) != ClearBelow(h, b) && ClearBelow(l, b + 1) == ClearBelow(h, b + 1)
    ensures TopDifference(l, h, b)
  {
    DoubleInjective(ShiftRight(l, b + 1), ShiftRight(h, b + 1), b + 1);
    forall i | i > b
      ensures Bit(l, i) <==> Bit(h, i)
    {
      ShrBits(l, b + 1, i - b - 1);
      ShrBits(h, b + 1, i - b - 1);
    }
    ShrStep(l, b);
    ShrStep(h, b);
    ShrBits(l, b, 0);
    ShrBits(h, b, 0);
  }

  lemma TopBitOfAddress(l: seq<Byte>, h: seq<Byte>, part: nat, b: nat)
    requires |l| == |h| && part < |l| && b < 8 && l[..part] == h[..part] && TopDifference(l[part], h[part], b)
    ensures TopDifference(Value(l), Value(h), b + 8 * (|l| - part - 1))
  {
    var k := b + 8 * (|l| - part - 1);
    ValueBits(l, k);
    ValueBits(h, k);
    forall i | i > k
      ensures Bit(Value(l), i) <==> Bit(Value(h), i)
    {
      ValueBits(l, i);
      ValueBits(h, i);
      if i < 8 * |l| {
        var at := |l| - 1 - i / 8;
        assert at <= part;
        if at < part {
          assert l[at] == l[..part][at] && h[at] == h[..part][at];
        }
      }
    }
  }

  // ----- The receiver

  /** The border the receiver derives from an address at that border. */
  function BorderIp(a: nat, k: nat): nat {
    OrBit(ClearBelow(a, k), k)
  }

  lemma BorderIpBits(a: nat, k: nat, i: nat)
    ensures Bit(BorderIp(a, k), i) <==> i == k || (i > k && Bit(a, i))
  {
    OrBitBits(ClearBelow(a, k), k, i);
    DoubleBits(ShiftRight(a, k), k, i);
    if i >= k {
      ShrBits(a, k, i - k);
    }
  }

  /** The receivers of two adjacent fragments, one working from the last address of the lower
      fragment and one from the first address of the upper fragment, derive the same border
      from the shared flag, and it separates the fragments. */
  lemma AdjacentBordersAgree(l: nat, h: nat, k: nat)
    requires TopDifference(l, h, k) && l < h
    ensures BorderIp(l, k) == BorderIp(h, k) && l < BorderIp(h, k) <= h
  {
    forall i: nat
      ensures Bit(BorderIp(l, k), i) <==> Bit(BorderIp(h, k), i)
    {
      BorderIpBits(l, k, i);
      BorderIpBits(h, k, i);
    }
    SameBitsSameNumber(BorderIp(l, k), BorderIp(h, k));
    BorderSeparates(l, h, k);
    UpperHasBit(l, h, k);
    forall i: nat
      ensures Bit(BorderIp(h, k), i) <==> Bit(ClearBelow(h, k), i)
    {
      BorderIpBits(h, k, i);
      DoubleBits(ShiftRight(h, k), k, i);
      if i >= k {
        ShrBits(h, k, i - k);
      }
    }
    SameBitsSameNumber(BorderIp(h, k), ClearBelow(h, k));
  }

  lemma UpperHasBit(l: nat, h: nat, k: nat)
    requires TopDifference(l, h, k) && l < h
    ensures Bit(h, k)
  {
    SameAbove(l, h, k);
    ShrBits(l, k, 0);
    ShrBits(h, k, 0);
    ShrMonotone(l, h, k);
    ShrStep(l, k);
    ShrStep(h, k);
    hide ShiftRight;
  }

  lemma SameAbove(l: nat, h: nat, k: nat)
    requires TopDifference(l, h, k)
    ensures ShiftRight(l, k + 1) == ShiftRight(h, k + 1)
  {
    hide Bit, ShiftRight;
    var x, y := ShiftRight(l, k + 1), ShiftRight(h, k + 1);
    forall i: nat
      ensures Bit(x, i) <==> Bit(y, i)
    {
      ShrBits(l, k + 1, i);
      ShrBits(h, k + 1, i);
    }
    SameBitsSameNumber(x, y);
  }

  /** The index of the byte that a border flag names in an address of n bytes, after the
      decrement of the 8-bit flag. */
  function FlagIndex(flag: Byte, n: nat): int {
    n - (flag + 255) % 256 / 8 - 1
  }

  /** The flags that name a byte of the address. */
  lemma FlagInside(flag: Byte, n: nat)
    requires n < 32
    ensures FlagIndex(flag, n) >= 0 <==> 0 < flag <= 8 * n
  {
  }

  /** olsr_calculate_tc_border for one border: the outermost flag 0xff leaves the whole range
      open, any other flag clears and sets bits of the address next to the border. */
  method CalculateTcBorder(flag: nat, ip: seq<Byte>, outermost: Byte) returns (border: seq<Byte>)
    requires flag == 0xff || 0 < flag <= 8 * |ip|
    ensures |border| == |ip|
    ensures flag == 0xff ==> forall i :: 0 <= i < |ip| ==> border[i] == outermost
    ensures flag != 0xff ==> Value(border) == BorderIp(Value(ip), flag - 1)
  {
    if flag == 0xff {
      border := seq(|ip|, _ => outermost);
      return;
    }
    var k := flag - 1;
    border := ip;
    var i := 0;
    while i < k / 8
      invariant i <= k / 8 < |ip| == |border|
      invariant forall j :: 0 <= j < |ip| ==> border[j] == if j >= |ip| - i then 0 else ip[j]
    {
      border := border[|ip| - i - 1 := 0];
      i := i + 1;
    }
    var at := |ip| - k / 8 - 1;
    ByteStays(border[at], k % 8);
    border := border[at := OrBit(ClearBelow(border[at], k % 8), k % 8)];
    BorderBytes(ip, border, k);
  }

  lemma {:induction false} ByteStays(x: Byte, b: nat)
    requires b < 8
    ensures OrBit(ClearBelow(x, b), b) < 256
  {
    var y := OrBit(ClearBelow(x, b), b);
    assert Pow2(8) == 256;
    forall i: nat
      ensures Bit(y, i) <==> Bit(Low(y, 8), i)
    {
      BorderIpBits(x, b, i);
      LowBits(y, 8, i);
      if i >= 8 {
        ShrSmall(x, 8);
        ShrBits(x, 8, i - 8);
        ZeroBits(i - 8);
      }
    }
    SameBitsSameNumber(y, Low(y, 8));
    LowIsRemainder(y, 8);
  }

  /** What becomes of the byte that has n bytes behind it. */
  function BorderByte(x: Byte, n: nat, k: nat): nat {
    if n < k / 8 then 0 else if n == k / 8 then OrBit(ClearBelow(x, k % 8), k % 8) else x
  }

  lemma BorderBytes(ip: seq<Byte>, b: seq<Byte>, k: nat)
    requires |b| == |ip| && k < 8 * |ip|
    requires forall j :: 0 <= j < |ip| ==> b[j] == BorderByte(ip[j], |ip| - 1 - j, k)
    ensures Value(b) == BorderIp(Value(ip), k)
  {
    forall i: nat
      ensures Bit(Value(b), i) <==> Bit(BorderIp(Value(ip), k), i)
    {
      BorderIpBits(Value(ip), k, i);
      ValueBits(b, i);
      ValueBits(ip, i);
      if i < 8 * |ip| {
        var j := |ip| - 1 - i / 8;
        BorderIpBits(ip[j], k % 8, i % 8);
        ZeroBits(i % 8);
        assert i == 8 * (i / 8) + i % 8 && k == 8 * (k / 8) + k % 8;
      }
    }
    SameBitsSameNumber(Value(b), BorderIp(Value(ip), k));
  }
}
