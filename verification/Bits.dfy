/** Powers of two and the bitwise operators on bytes, spelled out bit by bit. */
module Bits {

  type byte = x: int | 0 <= x < 256

  function Pow2(n: nat): (p: nat)
    ensures p >= 1
  {
    if n == 0 then 1 else 2 * Pow2(n - 1)
  }

  lemma Pow2Byte(k: nat)
    ensures Pow2(k + 8) == 256 * Pow2(k)
  {
    assert Pow2(k + 2) == 4 * Pow2(k);
    assert Pow2(k + 4) == 16 * Pow2(k);
    assert Pow2(k + 6) == 64 * Pow2(k);
  }

  lemma Pow2Small()
    ensures Pow2(8) == 0x100 && Pow2(16) == 0x1_0000 && Pow2(24) == 0x100_0000 && Pow2(32) == 0x1_0000_0000
  {
    Pow2Byte(0);
    Pow2Byte(8);
    Pow2Byte(16);
    Pow2Byte(24);
  }

  lemma {:induction false} Pow2Monotonic(m: nat, n: nat)
    requires m <= n
    ensures Pow2(m) <= Pow2(n)
  {
    if m < n {
      Pow2Monotonic(m, n - 1);
    }
  }

  /** v with its low `low` bits cleared. */
  function RoundDown(v: nat, low: nat): (r: nat)
    ensures r <= v < r + Pow2(low)
  {
    if low == 0 then v else 2 * RoundDown(v / 2, low - 1)
  }

  /** Clearing low bits, one bit at a time. */
  lemma RoundDownStep(v: nat, low: nat)
    ensures low == 0 ==> RoundDown(v, low) == v && Pow2(low) == 1
    ensures low > 0 ==> RoundDown(v, low) == 2 * RoundDown(v / 2, low - 1) && Pow2(low) == 2 * Pow2(low - 1)
  {
  }

  /** By division: the multiple of the block's size at or below the number. */
  lemma {:induction false} RoundDownIsMultiple(v: nat, low: nat)
    ensures Pow2(low) > 0 && RoundDown(v, low) == v / Pow2(low) * Pow2(low)
  {
    hide RoundDown, Pow2;
    RoundDownStep(v, low);
    if low > 0 {
      RoundDownIsMultiple(v / 2, low - 1);
      HalfDivides(v, Pow2(low - 1));
    }
  }

  lemma HalfDivides(v: nat, d: nat)
    requires d > 0
    ensures v / 2 / d == v / (2 * d)
    ensures 2 * (v / 2 / d * d) == v / (2 * d) * (2 * d)
  {
    var q := v / 2 / d;
    assert q * d <= v / 2 < q * d + d;
    assert q * (2 * d) == 2 * (q * d);
    assert q * (2 * d) <= v < q * (2 * d) + 2 * d;
    QuotientIs(v, 2 * d, q);
  }

  lemma QuotientIs(v: nat, d: nat, q: nat)
    requires d > 0 && q * d <= v < q * d + d
    ensures v / d == q
  {
    var e := v / d;
    assert e * d <= v < e * d + d;
    if e < q {
      Multiples(e + 1, q, d);
      assert false;
    }
    if q < e {
      Multiples(q + 1, e, d);
      assert false;
    }
  }

  lemma Multiples(a: nat, b: nat, d: nat)
    requires a <= b
    ensures a * d <= b * d
  {
    assert b * d == a * d + (b - a) * d;
  }

  /** Two numbers agree above their low bits exactly when one lies in the other's block. */
  lemma {:induction false} SameBlock(a: nat, b: nat, low: nat)
    ensures RoundDown(a, low) == RoundDown(b, low) <==> RoundDown(a, low) <= b < RoundDown(a, low) + Pow2(low)
  {
    hide RoundDown, Pow2;
    RoundDownStep(a, low);
    RoundDownStep(b, low);
    if low > 0 {
      SameBlock(a / 2, b / 2, low - 1);
    }
  }

  lemma {:induction false} RoundDownTwice(v: nat, low: nat)
    ensures RoundDown(RoundDown(v, low), low) == RoundDown(v, low)
  {
    hide RoundDown, Pow2;
    var r := RoundDown(v, low);
    RoundDownStep(v, low);
    RoundDownStep(r, low);
    if low > 0 {
      assert r / 2 == RoundDown(v / 2, low - 1);
      RoundDownTwice(v / 2, low - 1);
    }
  }

  lemma RoundDownTwoBits(v: nat, low: nat)
    ensures RoundDown(v, low + 2) == 4 * RoundDown(v / 4, low)
  {
    hide RoundDown, Pow2;
    assert v / 2 / 2 == v / 4;
    RoundDownStep(v, low + 2);
    RoundDownStep(v / 2, low + 1);
  }

  lemma RoundDownByte(v: nat, low: nat)
    ensures RoundDown(v, low + 8) == 256 * RoundDown(v / 256, low)
  {
    hide RoundDown, Pow2;
    RoundDownTwoBits(v, low + 6);
    RoundDownTwoBits(v / 4, low + 4);
    RoundDownTwoBits(v / 4 / 4, low + 2);
    RoundDownTwoBits(v / 4 / 4 / 4, low);
    assert v / 4 / 4 / 4 / 4 == v / 256;
  }

  /** Clearing low bits passes over a summand that has none. */
  lemma {:induction false} RoundDownSum(x: nat, v: nat, low: nat)
    requires RoundDown(x, low) == x
    ensures RoundDown(x + v, low) == x + RoundDown(v, low)
  {
    hide RoundDown, Pow2;
    RoundDownStep(x, low);
    RoundDownStep(v, low);
    RoundDownStep(x + v, low);
    if low > 0 {
      assert x % 2 == 0 && (x + v) / 2 == x / 2 + v / 2;
      RoundDownSum(x / 2, v / 2, low - 1);
    }
  }

  lemma {:induction false} RoundDownFewer(x: nat, low: nat, more: nat)
    requires low <= more && RoundDown(x, more) == x
    ensures RoundDown(x, low) == x
  {
    hide RoundDown, Pow2;
    RoundDownStep(x, low);
    RoundDownStep(x, more);
    if low > 0 {
      assert x % 2 == 0;
      RoundDownFewer(x / 2, low - 1, more - 1);
    }
  }

  /** The bits set in both; `bits` is how many low bits there are to look at. */
  function And(bits: nat, a: nat, b: nat): (r: nat)
    requires a < Pow2(bits) && b < Pow2(bits)
    ensures r < Pow2(bits)
  {
    if bits == 0 then 0 else 2 * And(bits - 1, a / 2, b / 2) + (if a % 2 == 1 && b % 2 == 1 then 1 else 0)
  }

  /** The bits set in either. */
  function Or(bits: nat, a: nat, b: nat): (r: nat)
    requires a < Pow2(bits) && b < Pow2(bits)
    ensures r < Pow2(bits)
  {
    if bits == 0 then 0 else 2 * Or(bits - 1, a / 2, b / 2) + (if a % 2 == 1 || b % 2 == 1 then 1 else 0)
  }

  /** The bits not set. */
  function Not(bits: nat, a: nat): (r: nat)
    requires a < Pow2(bits)
    ensures r < Pow2(bits)
  {
    if bits == 0 then 0 else 2 * Not(bits - 1, a / 2) + (1 - a % 2)
  }

  /** The three operators, one bit at a time. */
  lemma BitSteps(bits: nat, a: nat, b: nat)
    requires bits > 0 && a < Pow2(bits) && b < Pow2(bits)
    ensures Pow2(bits) == 2 * Pow2(bits - 1) && a / 2 < Pow2(bits - 1) && b / 2 < Pow2(bits - 1)
    ensures And(bits, a, b) == 2 * And(bits - 1, a / 2, b / 2) + (if a % 2 == 1 && b % 2 == 1 then 1 else 0)
    ensures Or(bits, a, b) == 2 * Or(bits - 1, a / 2, b / 2) + (if a % 2 == 1 || b % 2 == 1 then 1 else 0)
    ensures Not(bits, a) == 2 * Not(bits - 1, a / 2) + (1 - a % 2)
  {
  }

  lemma Halve(x: nat, half: nat, bit: nat)
    requires x == 2 * half + bit && bit <= 1
    ensures x / 2 == half && x % 2 == bit
  {
  }

  lemma NoBits(a: nat, b: nat)
    requires a < Pow2(0) && b < Pow2(0)
    ensures a == b == 0 && And(0, a, b) == Or(0, a, b) == Not(0, a) == 0
  {
  }

  /** Complementing is counting down from all ones. */
  lemma {:induction false} NotIsComplement(bits: nat, a: nat)
    requires a < Pow2(bits)
    ensures Not(bits, a) == Pow2(bits) - 1 - a
  {
    if bits > 0 {
      BitSteps(bits, a, a);
      hide Not, Pow2;
      NotIsComplement(bits - 1, a / 2);
    }
  }

  /** Setting exactly the bits a mask cleared is an addition: nothing carries. */
  lemma {:induction false} OrOfMaskedIsSum(bits: nat, a: nat, m: nat)
    requires a < Pow2(bits) && m < Pow2(bits)
    ensures Or(bits, And(bits, a, m), Not(bits, m)) == And(bits, a, m) + Not(bits, m)
  {
    hide And, Or, Not, Pow2;
    var both, off := And(bits, a, m), Not(bits, m);
    if bits == 0 {
      NoBits(a, m);
      NoBits(m, a);
      NoBits(both, off);
    } else {
      BitSteps(bits, a, m);
      BitSteps(bits, m, a);
      Halve(both, And(bits - 1, a / 2, m / 2), if a % 2 == 1 && m % 2 == 1 then 1 else 0);
      Halve(off, Not(bits - 1, m / 2), 1 - m % 2);
      OrOfMaskedIsSum(bits - 1, a / 2, m / 2);
      BitSteps(bits, both, off);
    }
  }

  /** A mask of ones above `low` zeros, halved. */
  lemma MaskHalves(bits: nat, low: nat)
    requires 0 < low <= bits
    ensures Pow2(low) <= Pow2(bits)
    ensures var mask := Pow2(bits) - Pow2(low); mask % 2 == 0 && mask / 2 == Pow2(bits - 1) - Pow2(low - 1)
  {
    Pow2Monotonic(low, bits);
  }

  lemma {:induction false} AndOfOnes(bits: nat, a: nat)
    requires a < Pow2(bits)
    ensures And(bits, a, Pow2(bits) - 1) == a
  {
    hide And, Pow2;
    var mask := Pow2(bits) - 1;
    if bits == 0 {
      NoBits(a, mask);
    } else {
      BitSteps(bits, a, mask);
      AndOfOnes(bits - 1, a / 2);
      assert mask / 2 == Pow2(bits - 1) - 1 && mask % 2 == 1;
    }
  }

  /** Masking with ones above `low` zeros clears the low bits. */
  lemma {:induction false} AndOfPrefixRoundsDown(bits: nat, low: nat, a: nat)
    requires a < Pow2(bits) && low <= bits
    ensures Pow2(low) <= Pow2(bits)
    ensures And(bits, a, Pow2(bits) - Pow2(low)) == RoundDown(a, low)
  {
    hide And, Pow2, RoundDown;
    Pow2Monotonic(low, bits);
    RoundDownStep(a, low);
    if low == 0 {
      AndOfOnes(bits, a);
    } else {
      var mask := Pow2(bits) - Pow2(low);
      MaskHalves(bits, low);
      BitSteps(bits, a, mask);
      AndOfPrefixRoundsDown(bits - 1, low - 1, a / 2);
    }
  }
}
