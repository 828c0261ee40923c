/** Rounding up to a power of two by smearing bits, and the integer logarithm
    (src/heap.c:178-202). */
module PowersOfTwo {

  function Pow2(n: nat): (p: nat)
    ensures p > 0
  {
    if n == 0 then 1 else 2 * Pow2(n - 1)
  }

  /** x >> k */
  function Shr(x: nat, k: nat): nat
    decreases k
  {
    if k == 0 then x else Shr(x / 2, k - 1)
  }

  /** a | b */
  function Or(a: nat, b: nat): (r: nat)
    decreases a + b
  {
    if a == 0 && b == 0 then 0
    else 2 * Or(a / 2, b / 2) + (if a % 2 == 1 || b % 2 == 1 then 1 else 0)
  }

  /** k ones below h. */
  function OnesBelow(h: nat, k: nat): nat
    decreases k
  {
    if k == 0 then h else 2 * OnesBelow(h, k - 1) + 1
  }

  function Ones(k: nat): nat {
    OnesBelow(0, k)
  }

  function Bits(x: nat): nat {
    if x == 0 then 0 else Bits(x / 2) + 1
  }

  lemma {:induction false} OnesIsPow2(k: nat)
    ensures Ones(k) + 1 == Pow2(k)
  {
    if k == 0 {
    } else {
      OnesIsPow2(k - 1);
    }
  }

  lemma {:induction false} ShrAdd(x: nat, a: nat, b: nat)
    ensures Shr(Shr(x, a), b) == Shr(x, a + b)
    decreases a
  {
    if a == 0 {
    } else {
      ShrAdd(x / 2, a - 1, b);
    }
  }

  lemma {:induction false} ShrOr(a: nat, b: nat, k: nat)
    ensures Shr(Or(a, b), k) == Or(Shr(a, k), Shr(b, k))
    decreases k
  {
    hide Or;
    if k == 0 {
    } else {
      ShrOr(a / 2, b / 2, k - 1);
      OrHalf(a, b);
    }
  }

  lemma OrHalf(a: nat, b: nat)
    ensures Or(a, b) / 2 == Or(a / 2, b / 2)
    ensures Or(a, b) % 2 == if a % 2 == 1 || b % 2 == 1 then 1 else 0
  {
  }

  lemma {:induction false} OrOnes(x: nat, k: nat)
    ensures Or(x, Ones(k)) == OnesBelow(Shr(x, k), k)
    decreases k
  {
    hide Or;
    if k == 0 {
      OrZero(x);
    } else {
      OrOnes(x / 2, k - 1);
      OrHalf(x, Ones(k));
    }
  }

  lemma {:induction false} OrZero(x: nat)
    ensures Or(x, 0) == x
  {
    if x == 0 {
    } else {
      OrZero(x / 2);
    }
  }

  lemma {:induction false} OnesOnOnes(j: nat, k: nat)
    ensures OnesBelow(Ones(j), k) == Ones(j + k)
    decreases k
  {
    if k == 0 {
    } else {
      OnesOnOnes(j, k - 1);
    }
  }

  lemma {:induction false} ShrOnes(j: nat, k: nat)
    requires k <= j
    ensures Shr(Ones(j), k) == Ones(j - k)
    decreases k
  {
    if k == 0 {
    } else {
      ShrOnes(j - 1, k - 1);
    }
  }

  /** Of b bits, the topmost j (or all of them, if there are fewer) are ones. */
  predicate TopOnes(v: nat, b: nat, j: nat) {
    var t := if j < b then j else b;
    Shr(v, b - t) == Ones(t)
  }

  lemma SmearWide(v: nat, s: nat, j: nat)
    requires Shr(v, s + j) == Ones(j)
    ensures Shr(Or(v, Shr(v, j)), s) == Ones(j + j)
  {
    hide Shr, Or, OnesBelow, Ones;
    ShrOr(v, Shr(v, j), s);
    ShrAdd(v, j, s);
    ShrAdd(v, s, j);
    OrOnes(Shr(v, s), j);
    OnesOnOnes(j, j);
  }

  lemma SmearMost(v: nat, d: nat, j: nat)
    requires d <= j && Shr(v, d) == Ones(j)
    ensures Or(v, Shr(v, j)) == Ones(j + d)
  {
    hide Shr, Or, OnesBelow, Ones;
    ShrAdd(v, d, j - d);
    ShrOnes(j, j - d);
    OrOnes(v, d);
    OnesOnOnes(j, d);
  }

  /** or-ing a number with itself shifted by j doubles its run of leading ones. */
  lemma Smear(v: nat, b: nat, j: nat)
    requires TopOnes(v, b, j)
    ensures TopOnes(Or(v, Shr(v, j)), b, 2 * j)
  {
    hide Shr, Or, OnesBelow, Ones;
    ShrNone(v);
    ShrNone(Or(v, Shr(v, j)));
    if 2 * j <= b {
      SmearWide(v, b - 2 * j, j);
    } else if j < b {
      SmearMost(v, b - j, j);
    } else {
      ShrAll(b, j);
      OrZero(v);
    }
  }

  lemma ShrNone(v: nat)
    ensures Shr(v, 0) == v
  {
  }

  lemma {:induction false} ShrAll(b: nat, j: nat)
    requires b <= j
    ensures Shr(Ones(b), j) == 0
  {
    hide OnesBelow;
    ShrOnes(b, b);
    ShrAdd(Ones(b), b, j - b);
    assert Ones(0) == 0 by { NoOnes(); }
    ShrZero(j - b);
  }

  lemma NoOnes()
    ensures Ones(0) == 0
  {
  }

  lemma {:induction false} ShrZero(k: nat)
    ensures Shr(0, k) == 0
  {
    if k == 0 {
    } else {
      ShrZero(k - 1);
    }
  }

  lemma {:induction false} BitsTop(v: nat)
    requires v > 0
    ensures TopOnes(v, Bits(v), 1)
    ensures Pow2(Bits(v) - 1) <= v < Pow2(Bits(v))
  {
    if v > 1 {
      BitsTop(v / 2);
      assert Shr(v, Bits(v) - 1) == Shr(v / 2, Bits(v / 2) - 1);
    } else {
      assert Bits(v) == 1;
    }
  }

  const TWO64: nat := 0x1_0000_0000_0000_0000

  /** Subtract one, smear, add one, in 64 bits. */
  function UpperPowerOfTwo(v: nat): (r: nat)
    requires v < TWO64
  {
    var a := if v == 0 then TWO64 - 1 else v - 1;
    var b := Or(a, Shr(a, 1));
    var c := Or(b, Shr(b, 2));
    var d := Or(c, Shr(c, 4));
    var e := Or(d, Shr(d, 8));
    var f := Or(e, Shr(e, 16));
    var g := Or(f, Shr(f, 32));
    (g + 1) % TWO64
  }

  lemma {:induction false} PowMonotone(a: nat, b: nat)
    requires a <= b
    ensures Pow2(a) <= Pow2(b)
  {
    if a == b {
    } else {
      PowMonotone(a, b - 1);
    }
  }

  lemma Pow64()
    ensures Pow2(64) == TWO64 && Pow2(63) == 0x8000_0000_0000_0000 && Pow2(20) == 0x10_0000
  {
    assert Pow2(8) == 256;
    assert Pow2(16) == 0x1_0000 by { assert Pow2(12) == 4096; }
    assert Pow2(20) == 0x10_0000;
    assert Pow2(24) == 0x100_0000;
    assert Pow2(32) == 0x1_0000_0000 by { assert Pow2(28) == 0x1000_0000; }
    assert Pow2(40) == 0x100_0000_0000 by { assert Pow2(36) == 0x10_0000_0000; }
    assert Pow2(48) == 0x1_0000_0000_0000 by { assert Pow2(44) == 0x1000_0000_0000; }
    assert Pow2(56) == 0x100_0000_0000_0000 by { assert Pow2(52) == 0x10_0000_0000_0000; }
    assert Pow2(60) == 0x1000_0000_0000_0000;
  }

  lemma SmearAll(a: nat, b: nat)
    requires TopOnes(a, b, 1) && b <= 64
    ensures var x1 := Or(a, Shr(a, 1)); var x2 := Or(x1, Shr(x1, 2)); var x3 := Or(x2, Shr(x2, 4));
            var x4 := Or(x3, Shr(x3, 8)); var x5 := Or(x4, Shr(x4, 16)); var x6 := Or(x5, Shr(x5, 32));
            x6 == Ones(b)
  {
    hide Shr, Or, OnesBelow;
    var x1 := Or(a, Shr(a, 1));
    Smear(a, b, 1);
    var x2 := Or(x1, Shr(x1, 2));
    Smear(x1, b, 2);
    var x3 := Or(x2, Shr(x2, 4));
    Smear(x2, b, 4);
    var x4 := Or(x3, Shr(x3, 8));
    Smear(x3, b, 8);
    var x5 := Or(x4, Shr(x4, 16));
    Smear(x4, b, 16);
    var x6 := Or(x5, Shr(x5, 32));
    Smear(x5, b, 32);
    ShrNone(x6);
  }

  /** For numbers up to 2^63 it is the least power of two that is not below. */
  lemma UpperIsLeastPower(v: nat, k: nat)
    requires 0 < v <= 0x8000_0000_0000_0000
    ensures UpperPowerOfTwo(v) == Pow2(Bits(v - 1)) >= v
    ensures Pow2(k) >= v ==> Pow2(k) >= UpperPowerOfTwo(v)
  {
    hide Shr, Or, OnesBelow, Pow2, Bits;
    var a := v - 1;
    var b := Bits(a);
    Pow64();
    if a == 0 {
      assert b == 0 && Pow2(0) == 1 && TopOnes(a, b, 1) by { ZeroBits(); }
      PowMonotone(0, k);
    } else {
      BitsTop(a);
      if b > 63 {
        PowMonotone(63, b - 1);
      }
      if k < b {
        PowMonotone(k, b - 1);
      } else {
        PowMonotone(b, k);
      }
    }
    SmearAll(a, b);
    OnesIsPow2(b);
    PowMonotone(b, 63);
  }

  lemma ZeroBits()
    ensures Bits(0) == 0 && Pow2(0) == 1 && TopOnes(0, 0, 1)
  {
  }

  /** The position of the highest bit. */
  method IntLog2(x: nat) returns (r: nat)
    requires x > 0
    ensures Pow2(r) <= x < Pow2(r + 1)
  {
    r := 0;
    var y := x;
    while y / 2 != 0
      invariant y > 0 && Pow2(r) * y <= x < Pow2(r) * (y + 1)
      decreases y
    {
      LogStep(x, y, Pow2(r));
      y := y / 2;
      r := r + 1;
    }
  }

  lemma LogStep(x: nat, y: nat, p: nat)
    requires y > 1 && p * y <= x < p * (y + 1)
    ensures 2 * p * (y / 2) <= x < 2 * p * (y / 2 + 1)
  {
    assert y == 2 * (y / 2) || y == 2 * (y / 2) + 1;
    assert 2 * p * (y / 2) == p * (2 * (y / 2));
    assert 2 * p * (y / 2 + 1) == p * (2 * (y / 2) + 2);
  }

  /** Powers of two have exact logarithms. */
  lemma LogOfPower(k: nat, r: nat)
    requires Pow2(r) <= Pow2(k) < Pow2(r + 1)
    ensures r == k
  {
    if k < r {
      PowStrict(k, r);
    } else if k > r {
      PowMonotone(r + 1, k);
    }
  }

  lemma {:induction false} PowStrict(a: nat, b: nat)
    requires a < b
    ensures Pow2(a) < Pow2(b)
  {
    PowMonotone(a, b - 1);
  }
}
