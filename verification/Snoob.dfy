/** The next larger number with the same number of one bits: six ways to compute it, one
    specification. */
module Snoob {
  import opened Bits
  import opened BitCounts
  import SwarPop

  const WRAP: nat := 0x1_0000_0000

  /** r is the least number above x with as many one bits as x. */
  ghost predicate IsNext(x: nat, r: nat) {
    && x < r && PopCount(r) == PopCount(x)
    && forall y :: x < y < r ==> PopCount(y) != PopCount(x)
  }

  lemma NextUnique(x: nat, r: nat, s: nat)
    requires IsNext(x, r) && IsNext(x, s)
    ensures r == s
  {
    assert !(r < s) && !(s < r);
  }

  /** Adding the lowest one bit does not leave 32 bits. */
  ghost predicate Fits(x: nat)
    requires x > 0
  {
    x + Pow2(TrailingZeros(x)) < WRAP
  }

  // ---------------------------------------------------------------- the three blocks of a number

  /** The digits a, a zero, m ones. */
  ghost function OddPart(m: nat, a: nat): nat {
    Pow2(m) * (2 * a) + (Pow2(m) - 1)
  }

  /** x is: the digits a, a zero, m ones, t zeros. */
  ghost predicate Blocks(x: nat, t: nat, m: nat, a: nat) {
    m > 0 && x == Pow2(t) * OddPart(m, a)
  }

  lemma {:induction false} OddBlocks(x: nat) returns (m: nat, a: nat)
    requires x % 2 == 1
    ensures m > 0 && x == OddPart(m, a)
    decreases x
  {
    if x / 2 % 2 == 0 {
      m, a := 1, x / 2 / 2;
    } else {
      m, a := OddBlocks(x / 2);
      Doubled(m + 1, 2 * a);
      m := m + 1;
    }
  }

  lemma {:induction false} Decompose(x: nat) returns (t: nat, m: nat, a: nat)
    requires x > 0
    ensures Blocks(x, t, m, a) && t == TrailingZeros(x)
    decreases x
  {
    if x % 2 == 1 {
      t := 0;
      m, a := OddBlocks(x);
    } else {
      t, m, a := Decompose(x / 2);
      Doubled(t + 1, OddPart(m, a));
      t := t + 1;
    }
  }

  /** The number the six functions compute: the lowest run of ones, its top bit moved up one
      place and the rest moved down to the bottom. */
  ghost function Moved(t: nat, m: nat, a: nat): nat
    requires m > 0
  {
    Pow2(t + m) * (2 * a + 1) + (Pow2(m - 1) - 1)
  }

  /** The ripple: x plus its lowest one bit. */
  lemma Ripple(x: nat, t: nat, m: nat, a: nat)
    requires Blocks(x, t, m, a)
    ensures x + Pow2(t) == Pow2(t + m) * (2 * a + 1)
    ensures x + Pow2(t) == Pow2(t) * (Pow2(m) * (2 * a + 1))
  {
    hide Pow2;
    var p, q := Pow2(t), Pow2(m);
    Distribute(q, 2 * a, 1);
    Distribute(p, OddPart(m, a), 1);
    Pow2Sum(t, m);
    Associate(p, q, 2 * a + 1);
  }

  lemma Distribute(p: nat, b: nat, c: nat)
    ensures p * (b + c) == p * b + p * c
  {
  }

  lemma Associate(p: nat, q: nat, r: nat)
    ensures p * (q * r) == p * q * r
  {
  }

  lemma OddPop(m: nat, a: nat)
    ensures PopCount(OddPart(m, a)) == PopCount(a) + m
  {
    hide PopCount, Pow2;
    PopBlock(m, 2 * a, Pow2(m) - 1);
    PopOnes(m);
    PopDouble(a);
  }

  lemma BlocksPop(x: nat, t: nat, m: nat, a: nat)
    requires Blocks(x, t, m, a)
    ensures PopCount(x) == PopCount(OddPart(m, a)) == PopCount(a) + m
  {
    hide PopCount, Pow2, OddPart;
    PopBlock(t, OddPart(m, a), 0);
    PopDouble(0);
    OddPop(m, a);
  }

  lemma PopDouble(a: nat)
    ensures PopCount(2 * a) == PopCount(a) && PopCount(2 * a + 1) == PopCount(a) + 1 && PopCount(0) == 0
  {
  }

  lemma MovedPop(t: nat, m: nat, a: nat)
    requires m > 0
    ensures PopCount(Moved(t, m, a)) == PopCount(a) + m
  {
    hide PopCount;
    Pow2Monotone(m - 1, t + m);
    PopBlock(t + m, 2 * a + 1, Pow2(m - 1) - 1);
    PopOnes(m - 1);
    PopDouble(a);
  }

  /** Between x and the ripple there are too many ones. */
  lemma BelowRipple(x: nat, t: nat, m: nat, a: nat, y: nat)
    requires Blocks(x, t, m, a) && x < y < x + Pow2(t)
    ensures PopCount(y) > PopCount(x)
  {
    hide PopCount, Pow2, OddPart;
    BlocksPop(x, t, m, a);
    PopBlock(t, OddPart(m, a), y - x);
    PopPositive(y - x);
  }

  /** Between the ripple and the result there are too few. */
  lemma AboveRipple(x: nat, t: nat, m: nat, a: nat, y: nat)
    requires Blocks(x, t, m, a) && x + Pow2(t) <= y < Moved(t, m, a)
    ensures PopCount(y) < PopCount(x)
  {
    hide PopCount, Pow2;
    Ripple(x, t, m, a);
    var e := y - (x + Pow2(t));
    Pow2Monotone(m - 1, t + m);
    PopBlock(t + m, 2 * a + 1, e);
    PopBound(m - 1, e);
    PopDouble(a);
    BlocksPop(x, t, m, a);
  }

  lemma MovedIsNext(x: nat, t: nat, m: nat, a: nat)
    requires Blocks(x, t, m, a)
    ensures IsNext(x, Moved(t, m, a))
  {
    hide PopCount;
    BlocksPop(x, t, m, a);
    MovedPop(t, m, a);
    Ripple(x, t, m, a);
    forall y | x < y < Moved(t, m, a)
      ensures PopCount(y) != PopCount(x)
    {
      if y < x + Pow2(t) {
        BelowRipple(x, t, m, a, y);
      } else {
        AboveRipple(x, t, m, a, y);
      }
    }
  }

  // ---------------------------------------------------------------- machine operators

  function Neg(x: u32): u32 {
    (WRAP - x) % WRAP
  }

  lemma DivIs(n: nat, d: nat, q: nat, r: nat)
    requires n == d * q + r && r < d
    ensures n / d == q
  {
    var k, s := n / d, n % d;
    QuotientSplit(n, d);
    if k < q {
      ProductMonotone(d, k + 1, q);
      Distribute(d, k, 1);
    } else if k > q {
      ProductMonotone(d, q + 1, k);
      Distribute(d, q, 1);
    }
  }

  lemma QuotientSplit(n: nat, d: nat)
    requires d > 0
    ensures n == d * (n / d) + n % d
  {
  }

  lemma OddAnd(k: nat, o: nat)
    requires o % 2 == 1 && o < Pow2(k)
    ensures And(o, Pow2(k) - o) == 1
  {
    assert k > 0;
    assert (Pow2(k) - o) / 2 == Pow2(k - 1) - 1 - o / 2;
    AndComplement(k - 1, o / 2);
  }

  lemma FactorBelow(t: nat, o: nat)
    requires o > 0 && Pow2(t) * o < WRAP
    ensures t < 32 && Pow2(32) == WRAP == Pow2(t) * Pow2(32 - t) && o < Pow2(32 - t)
  {
    hide Pow2;
    Pow2At32();
    Product(Pow2(t), o);
    Pow2Below(t, 32);
    Pow2Sum(t, 32 - t);
    if o >= Pow2(32 - t) {
      ProductMonotone(Pow2(t), Pow2(32 - t), o);
    }
  }

  lemma Product(p: nat, o: nat)
    requires o > 0
    ensures p <= p * o
  {
  }

  lemma ProductMonotone(p: nat, b: nat, c: nat)
    requires b <= c
    ensures p * b <= p * c
  {
  }

  /** x & -x is the lowest one bit. */
  lemma LowestBit(x: nat, t: nat, o: nat)
    requires o % 2 == 1 && x == Pow2(t) * o && x < WRAP
    ensures 0 < x && And(x, Neg(x)) == Pow2(t)
  {
    hide Pow2, And;
    FactorBelow(t, o);
    var c := Pow2(32 - t) - o;
    Distribute(Pow2(t), o, c);
    OddAnd(32 - t, o);
    AndBlock(t, o, 0, c, 0);
    AndZero(0);
    Product(Pow2(t), o);
  }

  lemma OddIsOdd(m: nat, a: nat)
    requires m > 0
    ensures OddPart(m, a) % 2 == 1
  {
    Doubled(m, 2 * a);
  }

  /** The bits the ripple changed: a run of m + 1 ones. */
  lemma Changed(x: nat, t: nat, m: nat, a: nat)
    requires Blocks(x, t, m, a)
    ensures Xor(x, x + Pow2(t)) == Pow2(t) * (Pow2(m + 1) - 1)
  {
    hide Xor, OddPart;
    Distribute(Pow2(t), OddPart(m, a), 1);
    XorBlock(t, OddPart(m, a), 0, OddPart(m, a) + 1, 0);
    XorZero(0);
    ChangedOdd(m, a);
  }

  lemma ChangedOdd(m: nat, a: nat)
    ensures Xor(OddPart(m, a), OddPart(m, a) + 1) == Pow2(m + 1) - 1
  {
    hide Xor;
    Distribute(Pow2(m), 2 * a, 1);
    XorBlock(m, 2 * a, Pow2(m) - 1, 2 * a + 1, 0);
    XorZero(Pow2(m) - 1);
    XorStep(2 * a, 2 * a + 1);
    XorSelf(a);
  }

  /** Shifting the changed bits right by t + 2 leaves m - 1 ones, however it is done. */
  lemma ShiftOut(p: nat, q: nat)
    requires p > 0
    ensures p * (4 * q + 3) / 4 / p == q
    ensures p * (4 * q + 3) / (4 * p) == q
  {
    var n := p * (4 * q + 3);
    Distribute(p, 4 * q, 3);
    Associate(4, p, q);
    assert n == 4 * (p * q) + 3 * p;
    assert n / 4 == p * q + 3 * p / 4;
    DivIs(n / 4, p, q, 3 * p / 4);
    Associate(4, p, q);
    DivIs(n, 4 * p, q, 3 * p);
  }

  lemma OrLow(s: nat, c: nat, q: nat)
    requires q < Pow2(s)
    ensures Or(Pow2(s) * c, q) == Pow2(s) * c + q
  {
    hide Or;
    OrBlock(s, c, 0, 0, q);
    OrZero(c);
    OrZero(q);
  }

  /** The last step of every variant: ripple | (2^(m-1) - 1). */
  lemma LastStep(x: nat, t: nat, m: nat, a: nat)
    requires Blocks(x, t, m, a) && x + Pow2(t) < WRAP
    ensures Or(x + Pow2(t), Pow2(m - 1) - 1) == Moved(t, m, a)
    ensures Moved(t, m, a) < WRAP && Pow2(m - 1) < WRAP
  {
    hide Pow2, Or, OddPart;
    Ripple(x, t, m, a);
    Pow2Monotone(m - 1, t + m);
    OrLow(t + m, 2 * a + 1, Pow2(m - 1) - 1);
    FactorBelow(t + m, 2 * a + 1);
    var k := 32 - (t + m);
    ProductMonotone(Pow2(t + m), 2 * a + 2, Pow2(k));
    Product(Pow2(t + m), 2 * a + 1);
    Distribute(Pow2(t + m), 2 * a + 1, 1);
  }

  lemma OnesShape(m: nat)
    requires m > 0
    ensures Pow2(m + 1) - 1 == 4 * (Pow2(m - 1) - 1) + 3
  {
  }

  /** The facts behind every variant: where the pieces of x end up, and that putting them
      together gives the next number. */
  lemma Common(x: u32) returns (t: nat, m: nat, r: nat)
    requires x > 0 && Fits(x)
    ensures t == TrailingZeros(x) && t < 32 && m > 0
    ensures And(x, Neg(x)) == Pow2(t) && x + Pow2(t) < WRAP
    ensures Xor(x, x + Pow2(t)) < WRAP && PopCount(Xor(x, x + Pow2(t))) == m + 1
    ensures Quot(Xor(x, x + Pow2(t)) / 4, Pow2(t)) == Pow2(m - 1) - 1
    ensures Quot(Xor(x, x + Pow2(t)), Pow2(t + 2)) == Pow2(m - 1) - 1
    ensures And(x + Pow2(t), Neg(x + Pow2(t))) == Pow2(t + m)
    ensures Quot(Pow2(t + m), Pow2(t)) / 2 == Pow2(m - 1)
    ensures And(x, WRAP - 1 - (x + Pow2(t))) == Run(t, m) < 0x8000_0000 && Pow2(m - 1) <= 0x8000_0000
    ensures Or(x + Pow2(t), Pow2(m - 1) - 1) == r < WRAP && Pow2(m - 1) < WRAP
    ensures IsNext(x, r)
  {
    hide Pow2, And, Or, Xor, OddPart, IsNext, Moved, TrailingZeros, PopCount, Run;
    var a;
    t, m, a := Decompose(x);
    r := Moved(t, m, a);
    OddIsOdd(m, a);
    LowestBit(x, t, OddPart(m, a));
    FactorBelow(t, OddPart(m, a));
    Changed(x, t, m, a);
    ChangedFits(x, t, m, a);
    ChangedPop(t, m);
    ChangedShift(t, m);
    NewSmallest(x, t, m, a);
    RunOnly(x, t, m, a);
    LastStep(x, t, m, a);
    MovedIsNext(x, t, m, a);
  }

  lemma ChangedShift(t: nat, m: nat)
    requires m > 0
    ensures Quot(Pow2(t) * (Pow2(m + 1) - 1) / 4, Pow2(t)) == Pow2(m - 1) - 1
    ensures Quot(Pow2(t) * (Pow2(m + 1) - 1), Pow2(t + 2)) == Pow2(m - 1) - 1
  {
    hide Pow2;
    OnesShape(m);
    Pow2Sum(t, 2);
    Pow2Small();
    ShiftOut(Pow2(t), Pow2(m - 1) - 1);
  }

  /** The population count of the changed bits. */
  lemma ChangedPop(t: nat, m: nat)
    ensures PopCount(Pow2(t) * (Pow2(m + 1) - 1)) == m + 1
  {
    hide PopCount;
    PopBlock(t, Pow2(m + 1) - 1, 0);
    PopOnes(m + 1);
    PopDouble(0);
  }

  /** The ripple's own lowest bit, over x's: 2^m. */
  lemma NewSmallest(x: u32, t: nat, m: nat, a: nat)
    requires Blocks(x, t, m, a) && x + Pow2(t) < WRAP
    ensures And(x + Pow2(t), Neg(x + Pow2(t))) == Pow2(t + m)
    ensures Quot(Pow2(t + m), Pow2(t)) / 2 == Pow2(m - 1)
  {
    hide And, OddPart;
    Ripple(x, t, m, a);
    LowestBit(x + Pow2(t), t + m, 2 * a + 1);
    Pow2Sum(t, m);
    DivIs(Pow2(t + m), Pow2(t), Pow2(m), 0);
  }

  /** m ones, then t zeros. */
  ghost function Run(t: nat, m: nat): nat {
    Times(Pow2(t), Pow2(m) - 1)
  }

  ghost function Times(p: nat, q: nat): nat { p * q }

  /** x & ~ripple keeps the lowest run of ones. */
  lemma RunOnly(x: nat, t: nat, m: nat, a: nat)
    requires Blocks(x, t, m, a) && x + Pow2(t) < WRAP
    ensures And(x, WRAP - 1 - (x + Pow2(t))) == Run(t, m) < 0x8000_0000
    ensures Pow2(m - 1) <= 0x8000_0000
  {
    hide And, Pow2, OddPart, Run;
    var s := t + m;
    Pow2At32();
    RunBlocks(x, t, m, a);
    Ripple(x, t, m, a);
    FactorBelow(s, 2 * a + 1);
    Pow2Monotone(s, 31);
    Pow2Monotone(m - 1, 31);
    TopComplement(s, a);
    AndBlock(s + 1, a, Run(t, m), Pow2(31 - s) - 1 - a, Pow2(s) - 1);
    AndComplement(31 - s, a);
    AndOnes(s, Run(t, m));
  }

  lemma RunBlocks(x: nat, t: nat, m: nat, a: nat)
    requires Blocks(x, t, m, a)
    ensures x == Pow2(t + m + 1) * a + Run(t, m)
    ensures Run(t, m) < Pow2(t + m) && Pow2(t + m + 1) == 2 * Pow2(t + m)
  {
    hide Pow2;
    var p, q := Pow2(t), Pow2(m);
    Pow2Sum(t, m);
    Pow2Twice(t + m);
    Distribute(p, q * (2 * a), q - 1);
    Distribute(p, q - 1, 1);
    Associate(p, q, 2 * a);
    Associate(p * q, 2, a);
  }

  /** The complement of the ripple, cut at the digit above its lowest one. */
  lemma TopComplement(s: nat, a: nat)
    requires s < 32 && 2 * a + 1 < Pow2(32 - s) && Pow2(s) * (2 * a + 1) < WRAP
    ensures a < Pow2(31 - s)
    ensures WRAP - 1 - Pow2(s) * (2 * a + 1) == Pow2(s + 1) * (Pow2(31 - s) - 1 - a) + (Pow2(s) - 1)
    ensures Pow2(s) - 1 < Pow2(s + 1)
  {
    hide Pow2;
    Pow2At32();
    Pow2Twice(31 - s);
    Pow2Twice(s);
    Pow2Sum(s + 1, 31 - s);
    var p := Pow2(s + 1);
    Distribute(p, Pow2(31 - s) - 1 - a, 1 + a);
    Distribute(p, 1, a);
    Distribute(Pow2(s), 2 * a, 1);
    Associate(Pow2(s), 2, a);
  }

  /** Shifting out the trailing zeros of a run. */
  lemma RunShift(t: nat, m: nat)
    requires m > 0
    ensures Run(t, m) > 0
    ensures t > 0 ==> Run(t, m) % 2 == 0 && Run(t, m) / 2 == Run(t - 1, m)
    ensures t == 0 ==> Run(t, m) % 2 == 1 && Run(t, m) / 2 == Pow2(m - 1) - 1
  {
    hide Pow2;
    Pow2Twice(m - 1);
    RunPositive(Pow2(t), Pow2(m) - 1);
    if t > 0 {
      Doubled(t, Pow2(m) - 1);
    } else {
      NoShift(Pow2(m) - 1);
    }
  }

  lemma NoShift(v: nat)
    ensures Pow2(0) * v == v
  {
  }

  lemma RunPositive(p: nat, q: nat)
    requires p > 0 && q > 0
    ensures p * q > 0
  {
  }

  lemma {:induction false} XorBound(k: nat, x: nat, y: nat)
    requires x < Pow2(k) && y < Pow2(k)
    ensures Xor(x, y) < Pow2(k)
    decreases k
  {
    if k > 0 {
      XorBound(k - 1, x / 2, y / 2);
    }
  }

  lemma ChangedFits(x: nat, t: nat, m: nat, a: nat)
    requires Blocks(x, t, m, a) && x + Pow2(t) < WRAP
    ensures Xor(x, x + Pow2(t)) < WRAP
  {
    hide Pow2, Xor;
    Pow2At32();
    XorBound(32, x, x + Pow2(t));
  }

  // ---------------------------------------------------------------- the six variants

  /** The next number needs a 33rd bit exactly when no 32-bit number has as many ones. */
  lemma NoNext(x: u32)
    requires x > 0 && !Fits(x)
    ensures x + Pow2(TrailingZeros(x)) == WRAP
    ensures forall y :: x < y < WRAP ==> PopCount(y) != PopCount(x)
  {
    hide Pow2, OddPart, PopCount, TrailingZeros;
    var t, m, a := Decompose(x);
    var o := OddPart(m, a);
    OddIsOdd(m, a);
    FactorBelow(t, o);
    Distribute(Pow2(t), o, 1);
    ProductMonotone(Pow2(t), o + 1, Pow2(32 - t));
    forall y | x < y < WRAP
      ensures PopCount(y) != PopCount(x)
    {
      BlocksPop(x, t, m, a);
      PopBlock(t, o, y - x);
      PopPositive(y - x);
    }
  }

  lemma DivShrinks(n: nat, d: nat)
    requires d > 0
    ensures n / d <= n
  {
    QuotientSplit(n, d);
    if n / d > n {
      ProductMonotone(1, n + 1, n / d);
      Product(n / d, d);
    }
  }

  /** What the variants find when the ripple wraps to zero. */
  lemma Wrapped(x: u32)
    requires x > 0 && !Fits(x)
    ensures And(x, Neg(x)) == Pow2(TrailingZeros(x)) && x + And(x, Neg(x)) == WRAP
    ensures Quot(Xor(x, 0) / 4, And(x, Neg(x))) < x
    ensures Quot(0, And(x, Neg(x))) == 0
    ensures forall y :: x < y < WRAP ==> PopCount(y) != PopCount(x)
  {
    hide Pow2, And, Xor, OddPart, PopCount, TrailingZeros;
    var t, m, a := Decompose(x);
    OddIsOdd(m, a);
    LowestBit(x, t, OddPart(m, a));
    NoNext(x);
    XorZero(x);
    DivShrinks(x / 4, Pow2(t));
    DivShrinks(0, Pow2(t));
  }

  /** What is left of n ones when two of them go, in the lowest places. */
  function OnesLeft(n: nat): nat {
    if n < 2 then 0 else Pow2(n - 2) - 1
  }

  /** The ones that the variants shift down when the ripple wraps. */
  lemma WrappedOnes(x: u32)
    requires x > 0 && !Fits(x)
    ensures Quot(x / 4, Pow2(TrailingZeros(x))) == OnesLeft(PopCount(x))
    ensures Quot(x, Pow2(TrailingZeros(x) + 2)) == OnesLeft(PopCount(x))
  {
    hide Pow2, PopCount, TrailingZeros;
    var t := TrailingZeros(x);
    Pow2At32();
    TrailingBelow32(x);
    TopRun(x);
    NoNext(x);
    if t == 31 {
      Pow2Twice(31);
      Pow2Twice(32);
      DivIs(0x2000_0000, Pow2(31), 0, 0x2000_0000);
      DivIs(x, Pow2(33), 0, x);
    } else {
      Pow2Sum(t, 32 - t);
      Distribute(Pow2(t), Pow2(32 - t) - 1, 1);
      ChangedShift(t, 31 - t);
    }
  }

  lemma NotNext(x: nat, r: nat)
    requires r < x
    ensures !IsNext(x, r)
  {
  }

  method Snoob(x: u32) returns (r: nat)
    requires x != 0
    ensures r < WRAP
    ensures Fits(x) <==> IsNext(x, r)
    ensures !Fits(x) ==> r < x && r == OnesLeft(PopCount(x)) && forall y :: x < y < WRAP ==> PopCount(y) != PopCount(x)
  {
    hide Pow2, And, Or, Xor, IsNext, PopCount, TrailingZeros, Fits, Quot;
    if Fits(x) {
      var t, m, n := Common(x);
    } else {
      Wrapped(x);
      WrappedOnes(x);
      XorZero(x);
      OrZero(Quot(Xor(x, 0) / 4, And(x, Neg(x))));
      NotNext(x, Quot(Xor(x, 0) / 4, And(x, Neg(x))));
    }
    var smallest := And(x, Neg(x));
    var ripple := (x + smallest) % WRAP;
    var ones := Xor(x, ripple);
    ones := Quot(ones / 4, smallest);
    return Or(ripple, ones);
  }

  /** A number whose ripple wraps is a run of ones up to the top bit. */
  lemma TopRun(x: u32)
    requires x > 0 && !Fits(x)
    ensures PopCount(x) == 32 - TrailingZeros(x) && x >= 0x8000_0000
    ensures TrailingZeros(x) == 31 ==> x == 0x8000_0000
  {
    hide Pow2, OddPart, PopCount, TrailingZeros;
    Pow2At32();
    var t, m, a := Decompose(x);
    NoNext(x);
    OddIsOdd(m, a);
    FactorBelow(t, OddPart(m, a));
    Distribute(Pow2(t), OddPart(m, a), 1);
    Cancel(Pow2(t), OddPart(m, a) + 1, Pow2(32 - t));
    BlocksPop(x, t, m, a);
    PopOnes(32 - t);
    Pow2Monotone(t, 31);
  }

  lemma Cancel(p: nat, b: nat, c: nat)
    requires p > 0 && p * b == p * c
    ensures b == c
  {
    Distribute(p, b, 1);
    Distribute(p, c, 1);
    if b < c {
      ProductMonotone(p, b + 1, c);
    } else if c < b {
      ProductMonotone(p, c + 1, b);
    }
  }

  method Snoob1(x: u32) returns (r: nat)
    requires x != 0
    ensures r < WRAP
    ensures Fits(x) <==> IsNext(x, r)
    ensures !Fits(x) ==> r < x && r == OnesLeft(PopCount(x))
  {
    hide Pow2, And, Or, Xor, IsNext, PopCount, TrailingZeros, Fits, Quot;
    if Fits(x) {
      var t, m, next := Common(x);
    } else {
      Wrapped(x);
      WrappedOnes(x);
      XorZero(x);
      OrZero(Quot(Xor(x, 0) / 4, And(x, Neg(x))));
      NotNext(x, Quot(Xor(x, 0) / 4, And(x, Neg(x))));
    }
    var smallest := And(x, Neg(x));
    var ripple := (x + smallest) % WRAP;
    var ones := Xor(x, ripple);
    ones := ones / 4;
    var n := Ntz(x);
    ones := Quot(ones, Pow2(n));
    return Or(ripple, ones);
  }

  lemma PowLength(t: nat)
    ensures BitLength(Pow2(t)) == t + 1
  {
    LengthIs(t, Pow2(t));
  }

  lemma ZeroBits()
    ensures And(0, Neg(0)) == 0 && Xor(0, 0) == 0 && Quot(0, Pow2(1)) == 0 && Or(0, 0) == 0 && BitLength(0) == 0
  {
  }

  lemma TwoMore(x: nat, t: nat)
    requires x > 0
    ensures Quot(x, Pow2(t + 2)) < x
  {
    hide Pow2;
    Pow2Twice(t);
    Pow2Twice(t + 1);
    DivShrinksMore(x, Pow2(t + 2));
  }

  lemma DivShrinksMore(n: nat, d: nat)
    requires n > 0 && d > 1
    ensures n / d < n
  {
    QuotientSplit(n, d);
    if n / d >= n {
      ProductMonotone(d, n, n / d);
      Distribute(n, 1, d - 1);
      Product(n, d - 1);
    }
  }

  /** The shift count 33 - nlz(smallest) has to stay below the word width. */
  method Snoob2(x: u32) returns (r: nat)
    requires x == 0 || TrailingZeros(x) < 30
    ensures r < WRAP && (x == 0 ==> r == 0)
    ensures x != 0 ==> (Fits(x) <==> IsNext(x, r))
    ensures x != 0 && !Fits(x) ==> r < x && r == OnesLeft(PopCount(x))
  {
    hide Pow2, And, Or, Xor, IsNext, PopCount, TrailingZeros, Fits, Quot, BitLength;
    if x == 0 {
      ZeroBits();
    } else if Fits(x) {
      var t, m, next := Common(x);
      PowLength(t);
    } else {
      Wrapped(x);
      PowLength(TrailingZeros(x));
      XorZero(x);
      WrappedOnes(x);
      TwoMore(x, TrailingZeros(x));
      OrZero(Quot(x, Pow2(TrailingZeros(x) + 2)));
      NotNext(x, Quot(x, Pow2(TrailingZeros(x) + 2)));
    }
    var smallest := And(x, Neg(x));
    var ripple := (x + smallest) % WRAP;
    var ones := Xor(x, ripple);
    var n := Nlz(smallest);
    assert x > 0 ==> 33 - n == TrailingZeros(x) + 2 < 32;
    ones := Quot(ones, Pow2(33 - n));
    return Or(ripple, ones);
  }

  lemma FewOnes(x: u32)
    requires x > 0 && !Fits(x) && x != 0x8000_0000
    ensures Xor(x, 0) == x && 2 <= PopCount(x) && Pow2(PopCount(x) - 2) - 1 < x
    ensures Or(0, Pow2(PopCount(x) - 2) - 1) == Pow2(PopCount(x) - 2) - 1
  {
    hide Pow2, Xor, Or, PopCount, TrailingZeros, Fits;
    TopRun(x);
    XorZero(x);
    TrailingBelow32(x);
    Pow2At32();
    Pow2Monotone(PopCount(x) - 2, 30);
    OrZero(Pow2(PopCount(x) - 2) - 1);
  }

  /** The shift count pop(ones) - 2 must not be negative, which it is for the top bit alone. */
  method Snoob3(x: u32) returns (r: nat)
    requires x != 0 && x != 0x8000_0000
    ensures r < WRAP
    ensures Fits(x) <==> IsNext(x, r)
    ensures !Fits(x) ==> r < x && r == OnesLeft(PopCount(x))
  {
    hide Pow2, And, Or, Xor, IsNext, PopCount, TrailingZeros, Fits, Quot;
    if Fits(x) {
      var t, m, next := Common(x);
    } else {
      Wrapped(x);
      FewOnes(x);
      NotNext(x, Pow2(PopCount(x) - 2) - 1);
    }
    var smallest := And(x, Neg(x));
    var ripple := (x + smallest) % WRAP;
    var ones := Xor(x, ripple);
    var n := SwarPop.Pop(ones);
    ones := Pow2(n - 2) - 1;
    return Or(ripple, ones);
  }

  method NextSetOfNElements(x: u32) returns (r: nat)
    ensures x == 0 ==> r == 0
    ensures x != 0 && Fits(x) ==> IsNext(x, r) && r < WRAP
    ensures x != 0 && !Fits(x) ==> r == WRAP - 1
  {
    hide Pow2, And, Or, Xor, IsNext, PopCount, TrailingZeros, Fits, Quot;
    if x == 0 {
      return 0;
    }
    if Fits(x) {
      var t, m, next := Common(x);
    } else {
      Wrapped(x);
      AndZero(0);
      OrZero(WRAP - 1);
    }
    var smallest := And(x, Neg(x));
    var ripple := (x + smallest) % WRAP;
    var newSmallest := And(ripple, Neg(ripple));
    var ones := (Quot(newSmallest, smallest) / 2 - 1 + WRAP) % WRAP;
    return Or(ripple, ones);
  }

  // ---------------------------------------------------------------- on signed integers

  /** The bit pattern of an int, and the int of a bit pattern. */
  function Unsigned(x: int): nat
    requires -0x8000_0000 <= x < 0x8000_0000
  {
    if x < 0 then x + WRAP else x
  }

  function Signed(u: nat): (x: int)
    requires u < WRAP
    ensures -0x8000_0000 <= x < 0x8000_0000 && Unsigned(x) == u
  {
    if u < 0x8000_0000 then u else u - WRAP
  }

  /** Where the loop version starts: the run of ones to shift, or all ones when the ripple wraps. */
  lemma SignedStart(x: int)
    requires -0x8000_0000 < x < 0x8000_0000 && x != 0
    requires x > 0 ==> x + Pow2(TrailingZeros(x)) < 0x8000_0000
    ensures
      var u := Unsigned(x);
      var t := TrailingZeros(u);
      && And(u, Neg(u)) == Pow2(t) && -0x8000_0000 <= x + Pow2(t) < 0x8000_0000
      && (Fits(u) ==> Unsigned(x + Pow2(t)) == u + Pow2(t))
      && (!Fits(u) ==> x + Pow2(t) == 0 && And(u, WRAP - 1) == u)
  {
    hide Pow2, And, TrailingZeros, OddPart;
    Pow2At32();
    var u := Unsigned(x);
    var t, m, a := Decompose(u);
    OddIsOdd(m, a);
    LowestBit(u, t, OddPart(m, a));
    Product(Pow2(t), OddPart(m, a));
    if !Fits(u) {
      NoNext(u);
      AndLowOnes(32, 0, u);
    }
  }

  /** Ones down to bit k, as an int. */
  ghost function TopOnes(k: nat): int {
    0 - Pow2(k) as int
  }

  lemma TopShift(k: nat)
    ensures k > 0 ==> TopOnes(k) % 2 == 0 && TopOnes(k) / 2 == TopOnes(k - 1)
    ensures k == 0 ==> TopOnes(k) % 2 == 1 && TopOnes(k) / 2 == -1
  {
  }

  lemma AllOnes()
    ensures Or(0, WRAP - 1) == WRAP - 1
  {
    hide Or;
    OrZero(WRAP - 1);
  }

  /** The loop version; a right shift of an int divides by 2, rounding down. The least int and an
      overflowing positive ripple are undefined in C, and for 0 the loop would not end. */
  method Snoob4(x0: int) returns (r: int)
    requires -0x8000_0000 < x0 < 0x8000_0000 && x0 != 0
    requires x0 > 0 ==> x0 + Pow2(TrailingZeros(x0)) < 0x8000_0000
    ensures -0x8000_0000 <= r < 0x8000_0000
    ensures Fits(Unsigned(x0)) ==> IsNext(Unsigned(x0), Unsigned(r))
    ensures !Fits(Unsigned(x0)) ==> r == -1
  {
    hide Pow2, And, Or, Xor, IsNext, PopCount, TrailingZeros, Quot, Run, Fits;
    SignedStart(x0);
    ghost var u, wraps := Unsigned(x0), !Fits(Unsigned(x0));
    ghost var t, m, next := TrailingZeros(u), 1, 0;
    if wraps {
      AllOnes();
    } else {
      t, m, next := Common(u);
    }
    var y := x0 + And(Unsigned(x0), Neg(Unsigned(x0)));
    var x := Signed(And(Unsigned(x0), WRAP - 1 - Unsigned(y)));
    ghost var k := t;
    RunShift(k, m);
    TopShift(k);
    while x % 2 == 0
      invariant x == if wraps then TopOnes(k) else Run(k, m)
      decreases k
    {
      RunShift(k, m);
      TopShift(k);
      x := x / 2;
      k := k - 1;
    }
    RunShift(k, m);
    TopShift(k);
    x := x / 2;
    return Signed(Or(Unsigned(y), Unsigned(x)));
  }

  // ---------------------------------------------------------------- the enumeration in main

  datatype Row = Row(x: nat, y: nat, z: nat, u: nat, v: nat, w: nat)

  ghost predicate Agrees(r: Row) {
    r.x == r.y == r.z == r.u == r.v == r.w
  }

  lemma SmallFits(x: nat)
    requires 0 < x <= 255
    ensures Fits(x) && x + Pow2(TrailingZeros(x)) < 0x8000_0000 && TrailingZeros(x) < 30
  {
    hide Pow2, OddPart, TrailingZeros;
    var t, m, a := Decompose(x);
    OddIsOdd(m, a);
    Product(Pow2(t), OddPart(m, a));
    Pow2At32();
    Pow2Below(t, 8);
  }

  /** The rows so far: their columns agree, and the first column lists the numbers below x with
      n one bits, in ascending order. */
  ghost predicate Listed(rows: seq<Row>, n: nat, x: nat) {
    && (forall i :: 0 <= i < |rows| ==> Agrees(rows[i]) && rows[i].x < x && PopCount(rows[i].x) == n)
    && (forall i, j :: 0 <= i < j < |rows| ==> rows[i].x < rows[j].x)
    && (forall v: nat :: v < x && PopCount(v) == n ==> Lists(rows, v))
  }

  ghost predicate Lists(rows: seq<Row>, v: nat) {
    exists i :: 0 <= i < |rows| && rows[i].x == v
  }

  lemma NoneListed(n: nat)
    ensures Listed([], n, Pow2(n) - 1)
  {
    hide PopCount, Pow2;
    forall v: nat | v < Pow2(n) - 1
      ensures PopCount(v) != n
    {
      PopBound(n, v);
    }
  }

  lemma ListsMore(rows: seq<Row>, row: Row)
    ensures forall v :: Lists(rows, v) || v == row.x ==> Lists(rows + [row], v)
  {
    var more := rows + [row];
    assert more[|rows|].x == row.x;
    forall v | Lists(rows, v)
      ensures Lists(more, v)
    {
      var i :| 0 <= i < |rows| && rows[i].x == v;
      assert more[i].x == v;
    }
  }

  /** One more row, and on to the next number. */
  lemma ListedMore(rows: seq<Row>, row: Row, n: nat, next: nat)
    requires Listed(rows, n, row.x) && Agrees(row) && PopCount(row.x) == n && IsNext(row.x, next)
    ensures Listed(rows + [row], n, next)
  {
    hide PopCount, Lists, Agrees;
    ListsMore(rows, row);
  }

  /** The rows main prints for n: its six columns always agree, and the first column runs
      through all bytes with n one bits, in ascending order. */
  method Enumerate(n: nat) returns (rows: seq<Row>)
    requires 1 <= n <= 7
    ensures forall i :: 0 <= i < |rows| ==> Agrees(rows[i]) && rows[i].x <= 255 && PopCount(rows[i].x) == n
    ensures forall i, j :: 0 <= i < j < |rows| ==> rows[i].x < rows[j].x
    ensures forall v :: 0 <= v <= 255 && PopCount(v) == n ==> exists i :: 0 <= i < |rows| && rows[i].x == v
  {
    hide Pow2, PopCount, TrailingZeros, Listed, Fits;
    Pow2At32();
    Pow2Monotone(n, 7);
    SevenOnes();
    Pow2Positive(n);
    var x := Pow2(n) - 1;
    PopOnes(n);
    NoneListed(n);
    var y: nat, z: nat, u: nat, v: nat, w: nat := x, x, x, x, x;
    rows := [];
    while true
      invariant 0 < x <= 255 && PopCount(x) == n && Agrees(Row(x, y, z, u, v, w))
      invariant Listed(rows, n, x)
      invariant forall i :: 0 <= i < |rows| ==> rows[i].x <= 255
      decreases 256 - x
    {
      ghost var before, row, x0 := rows, Row(x, y, z, u, v, w), x;
      rows := rows + [Row(x, y, z, u, v, w)];
      SmallFits(x);
      y := Snoob1(x);
      z := Snoob2(x);
      u := Snoob3(x);
      v := NextSetOfNElements(x);
      var next := Snoob4(x);
      w := Unsigned(next);
      x := Snoob(x);
      AllAgree(x0, Row(x, y, z, u, v, w));
      ListedMore(before, row, n, x);
      if x > 255 {
        break;
      }
    }
    AllListed(rows, n, x);
  }

  lemma AllAgree(x: nat, r: Row)
    requires IsNext(x, r.x) && IsNext(x, r.y) && IsNext(x, r.z) && IsNext(x, r.u) && IsNext(x, r.v) && IsNext(x, r.w)
    ensures Agrees(r) && x < r.x && PopCount(r.x) == PopCount(x)
  {
    hide PopCount;
    NextUnique(x, r.x, r.y);
    NextUnique(x, r.x, r.z);
    NextUnique(x, r.x, r.u);
    NextUnique(x, r.x, r.v);
    NextUnique(x, r.x, r.w);
  }

  lemma AllListed(rows: seq<Row>, n: nat, x: nat)
    requires Listed(rows, n, x) && x > 255
    ensures forall i :: 0 <= i < |rows| ==> Agrees(rows[i]) && PopCount(rows[i].x) == n
    ensures forall i, j :: 0 <= i < j < |rows| ==> rows[i].x < rows[j].x
    ensures forall v :: 0 <= v <= 255 && PopCount(v) == n ==> exists i :: 0 <= i < |rows| && rows[i].x == v
  {
    hide PopCount, Agrees;
  }

  lemma SevenOnes()
    ensures Pow2(7) == 128
  {
  }

  lemma Pow2Positive(n: nat)
    requires n > 0
    ensures Pow2(n) > 1
  {
  }
}
