/** Unsigned machine arithmetic on natural numbers: the bit operators by recursion on binary
    digits, and how they act on numbers put together from blocks of bits. */
module Bits {

  function Pow2(n: nat): (p: nat)
    ensures p > 0
  {
    if n == 0 then 1 else 2 * Pow2(n - 1)
  }

  function And(x: nat, y: nat): nat {
    if x == 0 || y == 0 then 0
    else (if x % 2 == 1 && y % 2 == 1 then 1 else 0) + 2 * And(x / 2, y / 2)
  }

  function Or(x: nat, y: nat): nat
    decreases x + y
  {
    if x == 0 && y == 0 then 0
    else (if x % 2 == 1 || y % 2 == 1 then 1 else 0) + 2 * Or(x / 2, y / 2)
  }

  function Xor(x: nat, y: nat): nat
    decreases x + y
  {
    if x == 0 && y == 0 then 0
    else (if x % 2 != y % 2 then 1 else 0) + 2 * Xor(x / 2, y / 2)
  }

  /** The number of one bits. */
  function PopCount(x: nat): nat {
    if x == 0 then 0 else x % 2 + PopCount(x / 2)
  }

  // ---------------------------------------------------------------- powers of two

  lemma {:induction false} Pow2Sum(a: nat, b: nat)
    ensures Pow2(a + b) == Pow2(a) * Pow2(b)
    decreases a
  {
    if a > 0 {
      Pow2Sum(a - 1, b);
      assert Pow2(a + b) == 2 * Pow2(a - 1 + b);
      TwiceProduct(Pow2(a - 1), Pow2(b));
    }
  }

  lemma TwiceProduct(p: nat, q: nat)
    ensures 2 * (p * q) == (2 * p) * q
  {
  }

  lemma {:induction false} Pow2Monotone(a: nat, b: nat)
    requires a <= b
    ensures Pow2(a) <= Pow2(b)
    decreases b
  {
    if a < b {
      Pow2Monotone(a, b - 1);
    }
  }

  lemma {:induction false} Pow2Below(a: nat, b: nat)
    requires Pow2(a) < Pow2(b)
    ensures a < b
  {
    if b <= a {
      Pow2Monotone(b, a);
    }
  }

  lemma Pow2Twice(b: nat)
    ensures Pow2(b + 1) == 2 * Pow2(b)
  {
  }

  lemma Pow2At32()
    ensures Pow2(8) == 0x100 && Pow2(16) == 0x1_0000 && Pow2(24) == 0x100_0000
    ensures Pow2(30) == 0x4000_0000 && Pow2(31) == 0x8000_0000 && Pow2(32) == 0x1_0000_0000
  {
    assert Pow2(8) == 0x100;
    Pow2Sum(8, 8);
    Pow2Sum(16, 8);
    Pow2Sum(24, 6);
    assert Pow2(6) == 64;
    Pow2Sum(30, 1);
    Pow2Sum(31, 1);
  }

  /** Unsigned division; a right shift by k divides by 2^k. */
  function Quot(n: nat, d: nat): nat
    requires d > 0
  {
    n / d
  }

  // ---------------------------------------------------------------- blocks

  /** a followed by k more binary digits b: its halves. */
  lemma BlockHalf(k: nat, a: nat, b: nat)
    requires k > 0 && b < Pow2(k)
    ensures (Pow2(k) * a + b) % 2 == b % 2
    ensures (Pow2(k) * a + b) / 2 == Pow2(k - 1) * a + b / 2
    ensures b / 2 < Pow2(k - 1)
  {
    var p := Pow2(k - 1) * a;
    assert Pow2(k) * a == 2 * p;
    assert (2 * p + b) % 2 == b % 2;
    assert (2 * p + b) / 2 == p + b / 2;
  }

  lemma {:induction false} PopBlock(k: nat, a: nat, b: nat)
    requires b < Pow2(k)
    ensures PopCount(Pow2(k) * a + b) == PopCount(a) + PopCount(b)
    decreases k
  {
    if k > 0 {
      BlockHalf(k, a, b);
      PopBlock(k - 1, a, b / 2);
    }
  }

  lemma Doubled(k: nat, v: nat)
    requires k > 0
    ensures Pow2(k) * v == 2 * (Pow2(k - 1) * v)
  {
  }

  lemma AndStep(x: nat, y: nat)
    ensures And(x, y) == (if x % 2 == 1 && y % 2 == 1 then 1 else 0) + 2 * And(x / 2, y / 2)
  {
  }

  lemma {:induction false} AndBlock(k: nat, a: nat, b: nat, c: nat, d: nat)
    requires b < Pow2(k) && d < Pow2(k)
    ensures And(Pow2(k) * a + b, Pow2(k) * c + d) == Pow2(k) * And(a, c) + And(b, d)
    decreases k
  {
    hide And;
    if k == 0 {
      AndStep(0, 0);
    } else {
      BlockHalf(k, a, b);
      BlockHalf(k, c, d);
      AndStep(Pow2(k) * a + b, Pow2(k) * c + d);
      AndStep(b, d);
      AndBlock(k - 1, a, b / 2, c, d / 2);
      Doubled(k, And(a, c));
    }
  }

  lemma OrStep(x: nat, y: nat)
    ensures Or(x, y) == (if x % 2 == 1 || y % 2 == 1 then 1 else 0) + 2 * Or(x / 2, y / 2)
  {
  }

  lemma {:induction false} OrBlock(k: nat, a: nat, b: nat, c: nat, d: nat)
    requires b < Pow2(k) && d < Pow2(k)
    ensures Or(Pow2(k) * a + b, Pow2(k) * c + d) == Pow2(k) * Or(a, c) + Or(b, d)
    decreases k
  {
    hide Or;
    if k == 0 {
      OrStep(0, 0);
    } else {
      BlockHalf(k, a, b);
      BlockHalf(k, c, d);
      OrStep(Pow2(k) * a + b, Pow2(k) * c + d);
      OrStep(b, d);
      OrBlock(k - 1, a, b / 2, c, d / 2);
      Doubled(k, Or(a, c));
    }
  }

  lemma XorStep(x: nat, y: nat)
    ensures Xor(x, y) == (if x % 2 != y % 2 then 1 else 0) + 2 * Xor(x / 2, y / 2)
  {
  }

  lemma {:induction false} XorBlock(k: nat, a: nat, b: nat, c: nat, d: nat)
    requires b < Pow2(k) && d < Pow2(k)
    ensures Xor(Pow2(k) * a + b, Pow2(k) * c + d) == Pow2(k) * Xor(a, c) + Xor(b, d)
    decreases k
  {
    hide Xor;
    if k == 0 {
      XorStep(0, 0);
    } else {
      BlockHalf(k, a, b);
      BlockHalf(k, c, d);
      XorStep(Pow2(k) * a + b, Pow2(k) * c + d);
      XorStep(b, d);
      XorBlock(k - 1, a, b / 2, c, d / 2);
      Doubled(k, Xor(a, c));
    }
  }

  // ---------------------------------------------------------------- simple identities

  lemma {:induction false} OrZero(x: nat)
    ensures Or(x, 0) == x && Or(0, x) == x
    decreases x
  {
    if x > 0 { OrZero(x / 2); }
  }

  lemma {:induction false} XorSelf(x: nat)
    ensures Xor(x, x) == 0
    decreases x
  {
    if x > 0 { XorSelf(x / 2); }
  }

  lemma {:induction false} XorZero(x: nat)
    ensures Xor(x, 0) == x && Xor(0, x) == x
    decreases x
  {
    if x > 0 { XorZero(x / 2); }
  }

  /** A number and its k-bit complement share no bit. */
  lemma {:induction false} AndComplement(k: nat, a: nat)
    requires a < Pow2(k)
    ensures And(a, Pow2(k) - 1 - a) == 0
    decreases k
  {
    if k > 0 {
      var b := Pow2(k) - 1 - a;
      assert b / 2 == Pow2(k - 1) - 1 - a / 2;
      AndComplement(k - 1, a / 2);
    }
  }

  /** Masking with k low ones keeps the k low digits. */
  lemma AndLowOnes(k: nat, q: nat, b: nat)
    requires b < Pow2(k)
    ensures And(Pow2(k) * q + b, Pow2(k) - 1) == b
  {
    hide And;
    AndBlock(k, q, b, 0, Pow2(k) - 1);
    AndZero(q);
    AndOnes(k, b);
  }

  lemma AndZero(x: nat)
    ensures And(x, 0) == 0 && And(0, x) == 0
  {
  }

  lemma {:induction false} AndOnes(k: nat, b: nat)
    requires b < Pow2(k)
    ensures And(b, Pow2(k) - 1) == b
    decreases k
  {
    if k > 0 {
      AndOnes(k - 1, b / 2);
      assert (Pow2(k) - 1) / 2 == Pow2(k - 1) - 1;
    }
  }

  lemma {:induction false} PopOnes(k: nat)
    ensures PopCount(Pow2(k) - 1) == k
    decreases k
  {
    if k > 0 {
      assert (Pow2(k) - 1) / 2 == Pow2(k - 1) - 1;
      PopOnes(k - 1);
    }
  }

  /** Of the numbers below 2^k, only the last has k one bits. */
  lemma {:induction false} PopBound(k: nat, e: nat)
    requires e < Pow2(k)
    ensures PopCount(e) <= k
    ensures PopCount(e) == k ==> e == Pow2(k) - 1
    decreases k
  {
    if k > 0 {
      PopBound(k - 1, e / 2);
    }
  }

  lemma {:induction false} PopPositive(x: nat)
    requires x > 0
    ensures PopCount(x) > 0
    decreases x
  {
    if x % 2 == 0 {
      PopPositive(x / 2);
    }
  }
}
