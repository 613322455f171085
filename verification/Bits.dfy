/**
  Machine words as natural numbers: bitwise operators by their binary digits,
  and the population count that the OTP counter code relies on.
 */
module Bits {
  type Byte = x: int | 0 <= x < 256

  function Pow2(n: nat): (p: nat)
    ensures p >= 1
  {
    if n == 0 then 1 else 2 * Pow2(n - 1)
  }

  lemma Pow2Values()
    ensures Pow2(8) == 256 && Pow2(15) == 32768 && Pow2(16) == 65536
  {
    assert Pow2(8) == 256;
    assert Pow2(12) == 4096;
  }

  lemma {:induction false} Pow2Mono(a: nat, b: nat)
    requires a <= b
    ensures Pow2(a) <= Pow2(b)
    decreases b
  {
    if a < b { Pow2Mono(a, b - 1); }
  }

  lemma {:induction false} Pow2Add(a: nat, b: nat)
    ensures Pow2(a + b) == Pow2(a) * Pow2(b)
  {
    if a > 0 { Pow2Add(a - 1, b); }
  }

  /** The binary digit of weight 2^k. */
  function Digit(x: nat, k: nat): (d: nat)
    ensures d <= 1
  {
    if k == 0 then x % 2 else Digit(x / 2, k - 1)
  }

  function Both(a: nat, b: nat): nat {
    if a == 1 && b == 1 then 1 else 0
  }

  function Either(a: nat, b: nat): nat {
    if a == 1 || b == 1 then 1 else 0
  }

  function And(a: nat, b: nat): (r: nat)
    ensures r <= a && r <= b
  {
    if a == 0 || b == 0 then 0 else 2 * And(a / 2, b / 2) + Both(a % 2, b % 2)
  }

  function Or(a: nat, b: nat): nat
    decreases a + b
  {
    if a == 0 then b
    else if b == 0 then a
    else 2 * Or(a / 2, b / 2) + Either(a % 2, b % 2)
  }

  function Differ(a: nat, b: nat): nat {
    if a == b then 0 else 1
  }

  function Xor(a: nat, b: nat): nat
    decreases a + b
  {
    if a == 0 then b
    else if b == 0 then a
    else 2 * Xor(a / 2, b / 2) + Differ(a % 2, b % 2)
  }

  /** The number of ones among the binary digits of x. */
  function Ones(x: nat): nat {
    if x == 0 then 0 else x % 2 + Ones(x / 2)
  }

  // The operators one digit at a time: x = 2 * h + d and y = 2 * g + e.

  lemma AndStep(x: nat, y: nat, h: nat, d: nat, g: nat, e: nat)
    requires d <= 1 && e <= 1 && x == 2 * h + d && y == 2 * g + e
    ensures And(x, y) == 2 * And(h, g) + Both(d, e)
  {
  }

  lemma OrStep(x: nat, y: nat, h: nat, d: nat, g: nat, e: nat)
    requires d <= 1 && e <= 1 && x == 2 * h + d && y == 2 * g + e
    ensures Or(x, y) == 2 * Or(h, g) + Either(d, e)
  {
  }

  lemma OnesStep(x: nat, h: nat, d: nat)
    requires d <= 1 && x == 2 * h + d
    ensures Ones(x) == d + Ones(h)
  {
  }

  /** And is the digitwise conjunction. */
  lemma {:induction false} AndDigit(a: nat, b: nat, k: nat)
    ensures Digit(And(a, b), k) == Both(Digit(a, k), Digit(b, k))
  {
    AndStep(a, b, a / 2, a % 2, b / 2, b % 2);
    if k > 0 { AndDigit(a / 2, b / 2, k - 1); }
  }

  /** Or is the digitwise disjunction. */
  lemma {:induction false} OrDigit(a: nat, b: nat, k: nat)
    ensures Digit(Or(a, b), k) == Either(Digit(a, k), Digit(b, k))
    decreases k
  {
    OrStep(a, b, a / 2, a % 2, b / 2, b % 2);
    if k > 0 { OrDigit(a / 2, b / 2, k - 1); }
  }

  lemma XorStep(x: nat, y: nat, h: nat, d: nat, g: nat, e: nat)
    requires d <= 1 && e <= 1 && x == 2 * h + d && y == 2 * g + e
    ensures Xor(x, y) == 2 * Xor(h, g) + Differ(d, e)
  {
  }

  /** Xor adds digits without carrying. */
  lemma {:induction false} XorDigit(a: nat, b: nat, k: nat)
    ensures Digit(Xor(a, b), k) == (Digit(a, k) + Digit(b, k)) % 2
    decreases k
  {
    XorStep(a, b, a / 2, a % 2, b / 2, b % 2);
    if k > 0 { XorDigit(a / 2, b / 2, k - 1); }
  }

  lemma {:induction false} AndSelf(a: nat)
    ensures And(a, a) == a
  {
    if a != 0 { AndSelf(a / 2); }
  }

  /** Masking with n ones keeps the low n digits. */
  lemma {:induction false} AndOnes(b: nat, n: nat, ones: nat)
    requires b < Pow2(n) && ones == Pow2(n) - 1
    ensures And(ones, b) == b && And(b, ones) == b
  {
    if n > 0 {
      var h: nat := Pow2(n - 1) - 1;
      AndOnes(b / 2, n - 1, h);
      AndStep(ones, b, h, 1, b / 2, b % 2);
      AndStep(b, ones, b / 2, b % 2, h, 1);
    }
  }

  lemma AndByteOnes(b: Byte, ones: nat)
    requires ones == 255
    ensures And(ones, b) == b && And(b, ones) == b
  {
    var n: nat := 8;
    assert Pow2(n) == 256 by { Pow2Values(); }
    AndOnes(b, n, ones);
  }

  /** Setting the digit just above n ones gives n + 1 ones. */
  lemma {:induction false} OrNextOne(n: nat, x: nat, y: nat)
    requires x == Pow2(n) - 1 && y == Pow2(n)
    ensures Or(x, y) == 2 * y - 1
  {
    if n > 0 {
      var h: nat, g := Pow2(n - 1) - 1, Pow2(n - 1);
      OrNextOne(n - 1, h, g);
      OrStep(x, y, h, 1, g, 0);
    }
  }

  lemma {:induction false} OrBelow(a: nat, b: nat, n: nat)
    requires a < Pow2(n) && b < Pow2(n)
    ensures Or(a, b) < Pow2(n)
  {
    if n > 0 {
      OrBelow(a / 2, b / 2, n - 1);
      OrStep(a, b, a / 2, a % 2, b / 2, b % 2);
    }
  }

  lemma {:induction false} XorBelow(a: nat, b: nat, n: nat)
    requires a < Pow2(n) && b < Pow2(n)
    ensures Xor(a, b) < Pow2(n)
  {
    if n > 0 {
      XorBelow(a / 2, b / 2, n - 1);
      XorStep(a, b, a / 2, a % 2, b / 2, b % 2);
    }
  }

  lemma XorByte(a: Byte, b: Byte)
    ensures Xor(a, b) < 256
  {
    var n: nat := 8;
    assert Pow2(n) == 256 by { Pow2Values(); }
    XorBelow(a, b, n);
  }

  lemma OrByte(a: Byte, b: Byte)
    ensures Or(a, b) < 256
  {
    var n: nat := 8;
    assert Pow2(n) == 256 by { Pow2Values(); }
    OrBelow(a, b, n);
  }

  /** Runs of low ones only ever gain digits. */
  lemma {:induction false} OrLowRuns(a: nat, b: nat, x: nat, y: nat)
    requires a <= b && x == Pow2(a) - 1 && y == Pow2(b) - 1
    ensures Or(x, y) == y
  {
    if a > 0 {
      var h: nat, g: nat := Pow2(a - 1) - 1, Pow2(b - 1) - 1;
      OrLowRuns(a - 1, b - 1, h, g);
      OrStep(x, y, h, 1, g, 1);
    }
  }

  /** Runs of high ones (of an n-digit word) only ever lose digits. */
  lemma {:induction false} AndHighRuns(a: nat, b: nat, n: nat, x: nat, y: nat)
    requires a <= b <= n && x == Pow2(n) - Pow2(a) && y == Pow2(n) - Pow2(b)
    ensures And(x, y) == y
  {
    if a == 0 {
      AndOnes(y, n, x);
    } else {
      Pow2Mono(a - 1, n - 1);
      Pow2Mono(b - 1, n - 1);
      var h: nat, g: nat := Pow2(n - 1) - Pow2(a - 1), Pow2(n - 1) - Pow2(b - 1);
      AndHighRuns(a - 1, b - 1, n - 1, h, g);
      AndStep(x, y, h, 0, g, 0);
    }
  }

  /** A run of high ones loses its lowest one. */
  lemma {:induction false} AndDropLowest(c: nat, n: nat, x: nat, y: nat)
    requires c < n && x == Pow2(n) - Pow2(c) && y == Pow2(n) - 1 - Pow2(c)
    ensures And(x, y) == x - Pow2(c)
  {
    if c == 0 {
      AndOnes(y, n, x);
    } else {
      Pow2Mono(c, n - 1);
      var h: nat, g: nat := Pow2(n - 1) - Pow2(c - 1), Pow2(n - 1) - 1 - Pow2(c - 1);
      AndDropLowest(c - 1, n - 1, h, g);
      AndStep(x, y, h, 0, g, 1);
    }
  }

  // ---------------------------------------------------------------------------
  // Population count
  // ---------------------------------------------------------------------------

  /** And(x, x - 1) drops exactly the lowest one of x. */
  lemma {:induction false} ClearLowestOne(x: nat, y: nat)
    requires x > 0 && y == x - 1
    ensures And(x, y) < x
    ensures Ones(And(x, y)) == Ones(x) - 1
  {
    var h := x / 2;
    if x % 2 == 1 {
      AndSelf(h);
      AndStep(x, y, h, 1, h, 0);
      OnesStep(2 * h, h, 0);
      OnesStep(x, h, 1);
    } else {
      var g: nat := h - 1;
      ClearLowestOne(h, g);
      AndStep(x, y, h, 0, g, 1);
      OnesStep(And(x, y), And(h, g), 0);
      OnesStep(x, h, 0);
    }
  }

  lemma {:induction false} OnesOfLowRun(n: nat, x: nat)
    requires x == Pow2(n) - 1
    ensures Ones(x) == n
  {
    if n > 0 {
      var h: nat := Pow2(n - 1) - 1;
      OnesOfLowRun(n - 1, h);
      OnesStep(x, h, 1);
    }
  }

  lemma {:induction false} OnesOfHighRun(c: nat, n: nat, x: nat)
    requires c <= n && x == Pow2(n) - Pow2(c)
    ensures Ones(x) == n - c
  {
    if c == 0 {
      OnesOfLowRun(n, x);
    } else {
      Pow2Mono(c - 1, n - 1);
      var h: nat := Pow2(n - 1) - Pow2(c - 1);
      OnesOfHighRun(c - 1, n - 1, h);
      OnesStep(x, h, 0);
    }
  }

  lemma {:induction false} OnesBound(x: nat, n: nat)
    requires x < Pow2(n)
    ensures Ones(x) <= n
  {
    if x != 0 { OnesBound(x / 2, n - 1); }
  }

  /** CalculateNumberofOnes: the bit-clearing loop. */
  method CountOnes(value: nat) returns (ones: nat)
    ensures ones == Ones(value)
  {
    var v := value;
    ones := 0;
    if v == 0 { return; }
    while v != 0
      invariant ones + Ones(v) == Ones(value)
      decreases v
    {
      ones := ones + 1;
      ClearLowestOne(v, v - 1);
      v := And(v, v - 1);
    }
  }
}
