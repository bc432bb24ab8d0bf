/** Byte-addressed memory and the little-endian words stored in it.

    The kernel, the tracer and the argument-vector builder all see memory as bytes that are
    sometimes read and written eight at a time; this module gives both views and says how
    one write changes the other. */
module ByteMemory {

  type byte = x: int | 0 <= x < 256
  type word = x: int | 0 <= x < 0x1_0000_0000_0000_0000

  const WORD_SIZE: nat := 8

  function Pow256(n: nat): (p: nat)
    ensures p > 0
  {
    if n == 0 then 1 else 256 * Pow256(n - 1)
  }

  /** The little-endian value of the n bytes from address a. */
  function LoadLE(m: seq<byte>, a: nat, n: nat): (v: nat)
    requires a + n <= |m|
    ensures v < Pow256(n)
    decreases n
  {
    if n == 0 then 0 else m[a] + 256 * LoadLE(m, a + 1, n - 1)
  }

  /** The memory after storing v, little-endian, in the n bytes from address a. */
  function StoreLE(m: seq<byte>, a: nat, n: nat, v: nat): (r: seq<byte>)
    requires a + n <= |m|
    ensures |r| == |m|
    ensures forall i :: 0 <= i < |m| && !(a <= i < a + n) ==> r[i] == m[i]
    decreases n
  {
    if n == 0 then m else StoreLE(m[a := v % 256], a + 1, n - 1, v / 256)
  }

  lemma {:induction false} LoadAgrees(m: seq<byte>, m': seq<byte>, a: nat, n: nat)
    requires a + n <= |m| && a + n <= |m'|
    requires forall i :: a <= i < a + n ==> m[i] == m'[i]
    ensures LoadLE(m, a, n) == LoadLE(m', a, n)
    decreases n
  {
    if n > 0 {
      LoadAgrees(m, m', a + 1, n - 1);
    }
  }

  lemma {:induction false} LoadAfterStore(m: seq<byte>, a: nat, n: nat, v: nat)
    requires a + n <= |m|
    requires v < Pow256(n)
    ensures LoadLE(StoreLE(m, a, n, v), a, n) == v
    decreases n
  {
    if n > 0 {
      LoadAfterStore(m[a := v % 256], a + 1, n - 1, v / 256);
    }
  }

  lemma LowByte(b: byte, r: nat)
    ensures (b + 256 * r) % 256 == b && (b + 256 * r) / 256 == r
  {
  }

  /** Storing back what was loaded restores a memory that differs only there. */
  lemma {:induction false} StoreLoaded(m: seq<byte>, m': seq<byte>, a: nat, n: nat)
    requires |m| == |m'| && a + n <= |m|
    requires forall i :: 0 <= i < |m| && !(a <= i < a + n) ==> m'[i] == m[i]
    ensures StoreLE(m', a, n, LoadLE(m, a, n)) == m
    decreases n
  {
    if n == 0 {
      assert m' == m;
    } else {
      var rest := LoadLE(m, a + 1, n - 1);
      LowByte(m[a], rest);
      StoreLoaded(m, m'[a := m[a]], a + 1, n - 1);
    }
  }

  lemma Pow256Word()
    ensures Pow256(8) == 0x1_0000_0000_0000_0000
  {
    assert Pow256(4) == 0x1_0000_0000;
    assert Pow256(5) == 0x100_0000_0000;
    assert Pow256(6) == 0x1_0000_0000_0000;
  }

  /** The least significant byte comes first. */
  lemma WordIs(m: seq<byte>, a: nat)
    requires a + 8 <= |m|
    ensures Word(m, a) ==
      m[a] as int + m[a + 1] as int * 0x100 + m[a + 2] as int * 0x1_0000 + m[a + 3] as int * 0x100_0000
        + m[a + 4] as int * 0x1_0000_0000 + m[a + 5] as int * 0x100_0000_0000
        + m[a + 6] as int * 0x1_0000_0000_0000 + m[a + 7] as int * 0x100_0000_0000_0000
  {
    assert LoadLE(m, a + 8, 0) == 0;
    assert LoadLE(m, a + 5, 3) == m[a + 5] as int + m[a + 6] as int * 0x100 + m[a + 7] as int * 0x1_0000;
    assert LoadLE(m, a + 2, 6) ==
      m[a + 2] as int + m[a + 3] as int * 0x100 + m[a + 4] as int * 0x1_0000 + 0x100_0000 * LoadLE(m, a + 5, 3);
  }

  /** The eight-byte word at address a. */
  function Word(m: seq<byte>, a: nat): word
    requires a + WORD_SIZE <= |m|
  {
    Pow256Word();
    LoadLE(m, a, WORD_SIZE)
  }

  function SetWord(m: seq<byte>, a: nat, v: word): (r: seq<byte>)
    requires a + WORD_SIZE <= |m|
    ensures |r| == |m|
    ensures Word(r, a) == v
    ensures forall i :: 0 <= i < |m| && !(a <= i < a + WORD_SIZE) ==> r[i] == m[i]
    ensures forall b: nat :: b + WORD_SIZE <= a || a + WORD_SIZE <= b <= |m| - WORD_SIZE ==> Word(r, b) == Word(m, b)
  {
    Pow256Word();
    var r := StoreLE(m, a, WORD_SIZE, v);
    LoadAfterStore(m, a, WORD_SIZE, v);
    assert forall b: nat :: b + WORD_SIZE <= a || a + WORD_SIZE <= b <= |m| - WORD_SIZE ==> Word(r, b) == Word(m, b) by {
      forall b: nat | b + WORD_SIZE <= a || a + WORD_SIZE <= b <= |m| - WORD_SIZE
        ensures Word(r, b) == Word(m, b)
      {
        LoadAgrees(r, m, b, WORD_SIZE);
      }
    }
    r
  }

  lemma SetWordIs(m: seq<byte>, i: nat, v: word)
    requires i + WORD_SIZE <= |m|
    ensures SetWord(m, i, v) == StoreLE(m, i, WORD_SIZE, v)
  {
    hide StoreLE, LoadLE;
  }

  ghost predicate InMemory(m: seq<byte>, o: nat, p: nat) {
    o <= p && p - o + WORD_SIZE <= |m|
  }

  /** The memory after storing v at pointer p, where pointer o names the first byte. */
  ghost function Poke(m: seq<byte>, o: nat, p: nat, v: nat): seq<byte> {
    if InMemory(m, o, p) && v < 0x1_0000_0000_0000_0000 then SetWord(m, p - o, v) else m
  }

  /** The memory a program runs in. `origin` is the pointer that names the first byte. */
  class Ram {
    const origin: nat
    var bytes: seq<byte>

    constructor (origin: nat, bytes: seq<byte>)
      ensures this.origin == origin && this.bytes == bytes
    {
      this.origin := origin;
      this.bytes := bytes;
    }

    ghost predicate Has(p: nat, n: nat)
      reads this
    {
      origin <= p && p + n <= origin + |bytes|
    }

    method LoadWord(p: nat) returns (v: word)
      requires Has(p, WORD_SIZE)
      ensures v == Word(bytes, p - origin)
    {
      v := Word(bytes, p - origin);
    }

    method StoreWord(p: nat, v: word)
      requires Has(p, WORD_SIZE)
      modifies this
      ensures bytes == Poke(old(bytes), origin, p, v)
      ensures |bytes| == |old(bytes)|
    {
      bytes := SetWord(bytes, p - origin, v);
    }

    /** string.c's memset: one byte at a time, with an `int` counter. */
    method Memset(p: nat, c: byte, len: nat)
      requires len < 0x8000_0000
      requires len > 0 ==> Has(p, len)
      modifies this
      ensures |bytes| == |old(bytes)|
      ensures forall i :: 0 <= i < |bytes| ==>
        bytes[i] == if p - origin <= i < p - origin + len then c else old(bytes[i])
    {
      var i := 0;
      while i < len
        invariant i <= len
        invariant |bytes| == |old(bytes)|
        invariant forall j :: 0 <= j < |bytes| ==>
          bytes[j] == if p - origin <= j < p - origin + i then c else old(bytes[j])
      {
        bytes := bytes[p - origin + i := c];
        i := i + 1;
      }
    }
  }
}
