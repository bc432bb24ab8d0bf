/** The bit-parallel population count of snoob.c: two-bit, then four-bit, then eight-bit fields
    hold the counts of their own bits, and a multiplication by shifts adds the bytes up. */
module SwarPop {
  import opened Bits
  import opened BitCounts

  /** k copies of the masks 0x5, 0x3 and 0x0F, over 2-, 4- and 8-bit fields. */
  function Mask5(k: nat): nat { if k == 0 then 0 else 1 + 4 * Mask5(k - 1) }
  function Mask3(k: nat): nat { if k == 0 then 0 else 3 + 16 * Mask3(k - 1) }
  function MaskF(k: nat): nat { if k == 0 then 0 else 15 + 256 * MaskF(k - 1) }

  /** Each 2-bit field replaced by the number of its ones. */
  function Pairs(x: nat): nat {
    if x == 0 then 0 else x % 2 + x / 2 % 2 + 4 * Pairs(x / 4)
  }

  /** Each pair of 2-bit fields replaced by their sum, and each pair of 4-bit fields. */
  function Nibbles(y: nat): nat {
    if y == 0 then 0 else y % 4 + y / 4 % 4 + 16 * Nibbles(y / 16)
  }

  function Bytes(z: nat): nat {
    if z == 0 then 0 else z % 16 + z / 16 % 16 + 256 * Bytes(z / 256)
  }

  function Sum4(y: nat): nat { if y == 0 then 0 else y % 4 + Sum4(y / 4) }
  function Sum16(z: nat): nat { if z == 0 then 0 else z % 16 + Sum16(z / 16) }
  function Sum256(w: nat): nat { if w == 0 then 0 else w % 256 + Sum256(w / 256) }

  ghost predicate PairsOk(y: nat) { y == 0 || (y % 4 <= 2 && PairsOk(y / 4)) }
  ghost predicate NibblesOk(z: nat) { z == 0 || (z % 16 <= 4 && NibblesOk(z / 16)) }
  ghost predicate BytesOk(w: nat) { w == 0 || (w % 256 <= 8 && BytesOk(w / 256)) }

  // ---------------------------------------------------------------- two-bit fields

  lemma FourTimes(k: nat)
    requires k > 0
    ensures Pow2(2 * k) == 4 * Pow2(2 * (k - 1))
  {
    hide Pow2;
    Pow2Small();
    Pow2Sum(2, 2 * (k - 1));
  }

  /** One two-bit field of x >> 1 under the mask. */
  lemma And5(x: nat, m: nat)
    ensures And(x / 2, 1 + 4 * m) == x / 2 % 2 + 4 * And(x / 4 / 2, m)
  {
    hide And;
    AndStep(x / 2, 1 + 4 * m);
    AndStep(x / 4, 2 * m);
  }

  lemma PairsStep(x: nat)
    ensures Pairs(x) == x % 2 + x / 2 % 2 + 4 * Pairs(x / 4) && x == x % 2 + 2 * (x / 2 % 2) + 4 * (x / 4)
  {
    assert x / 2 / 2 == x / 4;
  }

  lemma {:induction false} PairsMask(k: nat, x: nat)
    requires x < Pow2(2 * k)
    ensures And(x / 2, Mask5(k)) + Pairs(x) == x
    decreases k
  {
    hide And, Pow2, Pairs;
    if k == 0 {
      Pow2Zero();
      AndZero(0);
      NoPairs();
    } else {
      FourTimes(k);
      And5(x, Mask5(k - 1));
      PairsMask(k - 1, x / 4);
      PairsStep(x);
    }
  }

  lemma Pow2Zero()
    ensures Pow2(0) == 1
  {
  }

  lemma {:induction false} PairsSum(x: nat)
    ensures Sum4(Pairs(x)) == PopCount(x) && PairsOk(Pairs(x))
    decreases x
  {
    hide PopCount, Pairs;
    NoPairs();
    if x > 0 {
      PairsSum(x / 4);
      TwoBits(x);
      PairsTop(x);
    }
  }

  lemma NoPairs()
    ensures Pairs(0) == 0 && PopCount(0) == 0
  {
  }

  lemma TwoBits(x: nat)
    requires x > 0
    ensures PopCount(x) == x % 2 + x / 2 % 2 + PopCount(x / 4)
  {
    assert x / 2 / 2 == x / 4;
    assert PopCount(x / 2) == x / 2 % 2 + PopCount(x / 2 / 2);
  }

  lemma PairsTop(x: nat)
    ensures Pairs(x) / 4 == Pairs(x / 4) && Pairs(x) % 4 == x % 2 + x / 2 % 2
  {
  }

  lemma {:induction false} PairsSize(k: nat, x: nat)
    requires x < Pow2(2 * k)
    ensures Pairs(x) < Pow2(2 * k)
    decreases k
  {
    if k > 0 {
      assert Pow2(2 * k) == 4 * Pow2(2 * (k - 1));
      PairsSize(k - 1, x / 4);
    }
  }

  // ---------------------------------------------------------------- four-bit fields

  lemma SixteenTimes(k: nat)
    requires k > 0
    ensures Pow2(4 * k) == 16 * Pow2(4 * (k - 1)) && Pow2(4) == 16 && Pow2(2) == 4
  {
    Pow2Sum(4, 4 * (k - 1));
    assert Pow2(2) == 4 && Pow2(4) == 16;
  }

  /** One four-bit field under the mask. */
  lemma And3(q: nat, b: nat, m: nat)
    requires b < 16
    ensures And(16 * q + b, 3 + 16 * m) == 16 * And(q, m) + b % 4
  {
    hide And, Pow2;
    SixteenTimes(1);
    AndBlock(4, q, b, m, 3);
    AndLowOnes(2, b / 4, b % 4);
  }

  lemma QuarterOf(y: nat)
    ensures
      var q, b := y / 16, y % 16;
      y / 4 == 16 * (q / 4) + (4 * (q % 4) + b / 4) && 4 * (q % 4) + b / 4 < 16 && (4 * (q % 4) + b / 4) % 4 == b / 4
  {
    var q, b := y / 16, y % 16;
    assert y / 4 == 4 * q + b / 4;
  }

  lemma {:induction false} NibblesMask(k: nat, y: nat)
    requires y < Pow2(4 * k)
    ensures And(y, Mask3(k)) + And(y / 4, Mask3(k)) == Nibbles(y)
    decreases k
  {
    hide And, Pow2, Nibbles;
    if k == 0 {
      Pow2Zero();
      AndZero(0);
      NoNibbles();
    } else {
      var q, b, m := y / 16, y % 16, Mask3(k - 1);
      SixteenTimes(k);
      NibblesMask(k - 1, q);
      And3(q, b, m);
      QuarterOf(y);
      And3(q / 4, 4 * (q % 4) + b / 4, m);
      NibblesStep(y);
    }
  }

  lemma Mod16(y: nat)
    ensures y % 16 / 4 == y / 4 % 4 && y % 16 % 4 == y % 4 && y / 4 / 4 == y / 16
  {
    var q, b := y / 16, y % 16;
    var c, d := b / 4, b % 4;
    assert y == 4 * (4 * q + c) + d;
    assert y / 4 == 4 * q + c;
  }

  lemma NibblesStep(y: nat)
    ensures Nibbles(y) == y % 4 + y % 16 / 4 + 16 * Nibbles(y / 16)
  {
    Mod16(y);
  }

  lemma {:induction false} NibblesSum(y: nat)
    requires PairsOk(y)
    ensures Sum16(Nibbles(y)) == Sum4(y) && NibblesOk(Nibbles(y))
    decreases y
  {
    hide Nibbles;
    NoNibbles();
    if y > 0 {
      var q := y / 16;
      Mod16(y);
      assert PairsOk(y / 4) && PairsOk(q);
      NibblesSum(q);
      assert Sum4(y) == y % 4 + Sum4(y / 4) && Sum4(y / 4) == y / 4 % 4 + Sum4(q);
      NibblesTop(y);
    }
  }

  lemma NoNibbles()
    ensures Nibbles(0) == 0
  {
  }

  lemma NibblesTop(y: nat)
    requires y % 4 <= 2 && y / 4 % 4 <= 2
    ensures Nibbles(y) / 16 == Nibbles(y / 16) && Nibbles(y) % 16 == y % 4 + y / 4 % 4
  {
    hide Nibbles;
    Mod16(y);
    NibblesStep(y);
  }

  lemma {:induction false} NibblesSize(k: nat, y: nat)
    requires y < Pow2(4 * k)
    ensures Nibbles(y) < Pow2(4 * k)
    decreases k
  {
    if k > 0 {
      assert Pow2(4 * k) == 16 * Pow2(4 * (k - 1)) by { Pow2Sum(4, 4 * (k - 1)); assert Pow2(4) == 16; }
      NibblesSize(k - 1, y / 16);
    }
  }

  // ---------------------------------------------------------------- eight-bit fields

  lemma Times256(k: nat)
    requires k > 0
    ensures Pow2(8 * k) == 256 * Pow2(8 * (k - 1)) && Pow2(8) == 256 && Pow2(4) == 16
  {
    Pow2Sum(8, 8 * (k - 1));
    assert Pow2(4) == 16 && Pow2(8) == 256;
  }

  /** One eight-bit field under the mask. */
  lemma And15(q: nat, h: nat, low: nat, m: nat)
    requires h < 16 && low < 16
    ensures And(256 * q + (16 * h + low), 15 + 256 * m) == 256 * And(q, m) + low
  {
    hide And, Pow2;
    Times256(1);
    AndBlock(8, q, 16 * h + low, m, 15);
    AndLowOnes(4, h, low);
  }

  lemma NoBytes()
    ensures Bytes(0) == 0
  {
  }

  lemma {:induction false} BytesMask(k: nat, z: nat)
    requires z < Pow2(8 * k) && NibblesOk(z)
    ensures And(z + z / 16, MaskF(k)) == Bytes(z)
    decreases k
  {
    hide And, Pow2, Bytes;
    if k == 0 {
      Pow2Zero();
      AndZero(0);
      NoBytes();
    } else {
      var q, b := z / 256, z % 256;
      Times256(k);
      TwoNibbles(z);
      BytesMask(k - 1, q);
      Mod16High(z);
      Mod256(z);
      And15(q + q / 16, b / 16 + q % 16, b % 16 + b / 16, MaskF(k - 1));
      BytesStep(z);
    }
  }

  lemma Mod256(z: nat)
    ensures z % 256 / 16 == z / 16 % 16 && z % 256 % 16 == z % 16 && z / 16 / 16 == z / 256
  {
    var q, b := z / 256, z % 256;
    var c, d := b / 16, b % 16;
    assert z == 16 * (16 * q + c) + d;
    assert z / 16 == 16 * q + c;
  }

  lemma BytesStep(z: nat)
    ensures Bytes(z) == z % 16 + z % 256 / 16 + 256 * Bytes(z / 256)
  {
    Mod256(z);
  }

  lemma Mod16High(z: nat)
    ensures z / 16 == 256 * (z / 256 / 16) + 16 * (z / 256 % 16) + z % 256 / 16
  {
    Mod256(z);
    var q := z / 256;
    assert z / 16 == 16 * q + z % 256 / 16;
    assert q == 16 * (q / 16) + q % 16;
  }

  lemma TwoNibbles(z: nat)
    requires NibblesOk(z)
    ensures z % 16 <= 4 && z % 256 / 16 <= 4 && z / 256 % 16 <= 4 && NibblesOk(z / 256)
  {
    Mod256(z);
    assert NibblesOk(z / 16) && NibblesOk(z / 256);
  }

  lemma {:induction false} BytesSum(z: nat)
    requires NibblesOk(z)
    ensures Sum256(Bytes(z)) == Sum16(z) && BytesOk(Bytes(z))
    decreases z
  {
    if z > 0 {
      var q := z / 256;
      TwoNibbles(z);
      Mod256(z);
      BytesSum(q);
      assert z > 0 ==> Bytes(z) == 256 * Bytes(q) + (z % 16 + z / 16 % 16);
      assert Sum16(z) == z % 16 + Sum16(z / 16) && Sum16(z / 16) == z / 16 % 16 + Sum16(q);
      assert Bytes(z) / 256 == Bytes(q) && Bytes(z) % 256 == z % 16 + z / 16 % 16;
    }
  }

  lemma {:induction false} BytesSize(k: nat, z: nat)
    requires z < Pow2(8 * k)
    ensures Bytes(z) < Pow2(8 * k)
    decreases k
  {
    if k > 0 {
      assert Pow2(8 * k) == 256 * Pow2(8 * (k - 1)) by { Pow2Sum(8, 8 * (k - 1)); assert Pow2(8) == 256; }
      BytesSize(k - 1, z / 256);
    }
  }

  /** x + (x << 8), then x + (x << 16). */
  function Fold8(w: nat): nat {
    (w + w * 0x100 % 0x1_0000_0000) % 0x1_0000_0000
  }

  function Fold16(x: nat): nat {
    (x + x * 0x1_0000 % 0x1_0000_0000) % 0x1_0000_0000
  }

  lemma Fold8Is(b0: nat, b1: nat, b2: nat, b3: nat)
    requires b0 <= 8 && b1 <= 8 && b2 <= 8 && b3 <= 8
    ensures Fold8(b0 + 0x100 * b1 + 0x1_0000 * b2 + 0x100_0000 * b3) ==
      b0 + 0x100 * (b0 + b1) + 0x1_0000 * (b1 + b2) + 0x100_0000 * (b2 + b3)
  {
    var w8 := 0x100 * b0 + 0x1_0000 * b1 + 0x100_0000 * b2;
    var w := w8 / 0x100 + 0x100_0000 * b3;
    Wrapped(w * 0x100, b3, w8);
    Wrapped(w + w8, 0, w + w8);
  }

  lemma Fold16Is(c0: nat, c1: nat, c2: nat, c3: nat)
    requires c0 <= 16 && c1 <= 16 && c2 <= 16 && c3 <= 16
    ensures Fold16(c0 + 0x100 * c1 + 0x1_0000 * c2 + 0x100_0000 * c3) / 0x100_0000 == c1 + c3
  {
    var x, x16 := c0 + 0x100 * c1 + 0x1_0000 * c2 + 0x100_0000 * c3, 0x1_0000 * c0 + 0x100_0000 * c1;
    Wrapped(x * 0x1_0000, c2 + 0x100 * c3, x16);
    Wrapped(x + x16, 0, x + x16);
    assert x + x16 == 0x100_0000 * (c1 + c3) + (c0 + 0x100 * c1 + 0x1_0000 * (c0 + c2));
  }

  /** Four bytes, none above 8, added up in the top byte. */
  lemma FoldBytes(b0: nat, b1: nat, b2: nat, b3: nat)
    requires b0 <= 8 && b1 <= 8 && b2 <= 8 && b3 <= 8
    ensures Fold16(Fold8(b0 + 0x100 * b1 + 0x1_0000 * b2 + 0x100_0000 * b3)) / 0x100_0000 == b0 + b1 + b2 + b3
  {
    hide Fold8, Fold16;
    Fold8Is(b0, b1, b2, b3);
    Fold16Is(b0, b0 + b1, b1 + b2, b2 + b3);
  }

  lemma Wrapped(v: nat, q: nat, r: nat)
    requires v == 0x1_0000_0000 * q + r && r < 0x1_0000_0000
    ensures v % 0x1_0000_0000 == r
  {
  }

  lemma ByteQuotients(w: u32)
    ensures w / 0x100 / 0x100 == w / 0x1_0000 && w / 0x1_0000 / 0x100 == w / 0x100_0000 && w / 0x100_0000 / 0x100 == 0
  {
  }

  lemma Sum256Is(w: u32)
    requires BytesOk(w)
    ensures
      var b0, b1, b2, b3 := w % 0x100, w / 0x100 % 0x100, w / 0x1_0000 % 0x100, w / 0x100_0000;
      && w == b0 + 0x100 * b1 + 0x1_0000 * b2 + 0x100_0000 * b3
      && b0 <= 8 && b1 <= 8 && b2 <= 8 && b3 <= 8
      && Sum256(w) == b0 + b1 + b2 + b3
  {
    var w1, w2, w3 := w / 0x100, w / 0x1_0000, w / 0x100_0000;
    ByteQuotients(w);
    assert BytesOk(w1) && BytesOk(w2) && BytesOk(w3);
    assert Sum256(w) == w % 0x100 + Sum256(w1) && Sum256(w1) == w1 % 0x100 + Sum256(w2);
    assert Sum256(w2) == w2 % 0x100 + Sum256(w3) && Sum256(w3) == w3;
  }

  lemma Masks()
    ensures Mask5(16) == 0x5555_5555 && Mask3(8) == 0x3333_3333 && MaskF(4) == 0x0F0F_0F0F
  {
    assert Mask5(4) == 0x55;
    assert Mask5(8) == 0x5555;
    assert Mask5(12) == 0x55_5555;
    assert Mask3(4) == 0x3333;
  }

  /** snoob.c's pop. */
  method Pop(x0: u32) returns (n: nat)
    ensures n == PopCount(x0)
  {
    hide And, Pow2, Mask5, Mask3, MaskF, Pairs, Nibbles, Bytes, Sum4, Sum16, Sum256, PairsOk, NibblesOk, BytesOk, PopCount,
      Fold8, Fold16;
    Masks();
    Pow2At32();
    var x: nat := x0;
    PairsMask(16, x);
    PairsSum(x);
    PairsSize(16, x);
    x := x - And(x / 2, 0x5555_5555);
    NibblesMask(8, x);
    NibblesSum(x);
    NibblesSize(8, x);
    x := And(x, 0x3333_3333) + And(x / 4, 0x3333_3333);
    BytesMask(4, x);
    BytesSum(x);
    BytesSize(4, x);
    x := And(x + x / 0x10, 0x0F0F_0F0F);
    Sum256Is(x);
    FoldBytes(x % 0x100, x / 0x100 % 0x100, x / 0x1_0000 % 0x100, x / 0x100_0000);
    x := Fold8(x);
    x := Fold16(x);
    return x / 0x100_0000;
  }
}
