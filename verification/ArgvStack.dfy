/** How the hypervisor hands the guest its arguments: copy_argv lays strings, pointers and count
    out below rsp, and the guest's entry code reads them back. */
module ArgvStack {
  import opened ByteMemory

  const KERNEL_STACK_SIZE: nat := 0x4000

  // ---------------------------------------------------------------- the guest's view

  /** The bytes from p up to the first zero. */
  function CString(m: seq<byte>, p: nat): seq<byte>
    decreases |m| - p
  {
    if p >= |m| || m[p] == 0 then [] else [m[p]] + CString(m, p + 1)
  }

  ghost function WordOr0(m: seq<byte>, a: nat): nat {
    if a + WORD_SIZE <= |m| then Word(m, a) else 0
  }

  /** The entry code takes the count from [rsp] and the pointers from rsp + 8. */
  ghost function ReadArgc(m: seq<byte>, rsp: nat): nat {
    WordOr0(m, rsp)
  }

  ghost function ReadPointer(m: seq<byte>, rsp: nat, i: nat): nat {
    WordOr0(m, rsp + 8 + 8 * i)
  }

  ghost function ReadArgv(m: seq<byte>, rsp: nat): seq<seq<byte>> {
    seq(ReadArgc(m, rsp), i requires 0 <= i => CString(m, ReadPointer(m, rsp, i)))
  }

  // ---------------------------------------------------------------- the layout

  predicate NulFree(argv: seq<seq<byte>>) {
    forall s :: s in argv ==> 0 !in s
  }

  /** Bytes that the strings from i on take, each with its NUL. */
  function Need(argv: seq<seq<byte>>, i: nat): nat
    requires i <= |argv|
    decreases |argv| - i
  {
    if i == |argv| then 0 else |argv[i]| + 1 + Need(argv, i + 1)
  }

  /** Where rsp ends up: strings, alignment to 16, null word, pointers, count. */
  function FinalSp(rsp: nat, argv: seq<seq<byte>>): int {
    var sp := rsp - Need(argv, 0);
    sp - sp % 16 - 8 * (|argv| + 2)
  }

  /** What the source does not check: strings, padding, pointers and two more words fit the
      guest's stack. */
  predicate FitsStack(rsp: nat, argv: seq<seq<byte>>) {
    (Need(argv, 0) + (rsp - Need(argv, 0)) % 16) + 8 * (|argv| + 2) <= KERNEL_STACK_SIZE
  }

  ghost predicate Outside(m: seq<byte>, m': seq<byte>, lo: int, hi: int) {
    |m'| == |m| && forall x :: 0 <= x < |m| && !(lo <= x < hi) ==> m'[x] == m[x]
  }

  ghost predicate StringAt(m: seq<byte>, p: nat, s: seq<byte>) {
    p + |s| < |m| && m[p..p + |s|] == s && m[p + |s|] == 0
  }

  lemma {:induction false} CStringIs(m: seq<byte>, p: nat, s: seq<byte>)
    requires StringAt(m, p, s) && 0 !in s
    ensures CString(m, p) == s
    decreases |s|
  {
    if s != [] {
      assert m[p] == s[0] && m[p..p + |s|][1..] == m[p + 1..p + |s|];
      CStringIs(m, p + 1, s[1..]);
    }
  }

  lemma StringKept(m: seq<byte>, m': seq<byte>, lo: int, hi: int, p: nat, s: seq<byte>)
    requires StringAt(m, p, s) && Outside(m, m', lo, hi) && (p + |s| < lo || hi <= p)
    ensures StringAt(m', p, s)
  {
  }

  lemma {:induction false} NeedMonotone(argv: seq<seq<byte>>, i: nat, j: nat)
    requires i <= j <= |argv|
    ensures Need(argv, j) <= Need(argv, i)
    decreases j - i
  {
    if i < j {
      NeedMonotone(argv, i + 1, j);
    }
  }

  /** Strings i and up lie one after the other, each with its NUL, up to rsp. */
  ghost predicate StringsFrom(m: seq<byte>, argv: seq<seq<byte>>, copy: seq<nat>, rsp: nat, i: nat) {
    && |copy| == |argv|
    && forall j {:trigger copy[j]} :: i <= j < |argv| ==>
         copy[j] == rsp - Need(argv, j) && StringAt(m, copy[j], argv[j])
  }

  /** Pointers i and up stand in their places from `base` on. */
  ghost predicate PointersFrom(m: seq<byte>, copy: seq<nat>, base: nat, i: nat) {
    forall j {:trigger copy[j]} :: i <= j < |copy| ==> WordOr0(m, base + 8 * j) == copy[j]
  }

  lemma WordKept(m: seq<byte>, m': seq<byte>, lo: int, hi: int, b: nat)
    requires Outside(m, m', lo, hi) && (b + WORD_SIZE <= lo || hi <= b)
    ensures WordOr0(m', b) == WordOr0(m, b)
  {
    if b + WORD_SIZE <= |m| {
      LoadAgrees(m, m', b, WORD_SIZE);
    }
  }

  lemma PokeIs(m: seq<byte>, p: nat, v: nat)
    requires p + WORD_SIZE <= |m| && v < 0x1_0000_0000_0000_0000
    ensures WordOr0(Poke(m, 0, p, v), p) == v
    ensures Outside(m, Poke(m, 0, p, v), p, p + WORD_SIZE)
  {
    hide Word;
  }

  lemma OutsideMore(m0: seq<byte>, m: seq<byte>, m': seq<byte>, lo: int, mid: int, hi: int)
    requires Outside(m0, m, mid, hi) && Outside(m, m', lo, mid) && lo <= mid <= hi
    ensures Outside(m0, m', lo, hi)
  {
  }

  /** One more string in front of those already there. */
  lemma StringMore(m: seq<byte>, m': seq<byte>, argv: seq<seq<byte>>, copy: seq<nat>, rsp: nat, i: nat)
    requires i < |argv| && StringsFrom(m, argv, copy, rsp, i + 1)
    requires Need(argv, i) <= rsp <= |m| && copy[i] == rsp - Need(argv, i)
    requires m' == m[..copy[i]] + (argv[i] + [0]) + m[copy[i] + |argv[i]| + 1..]
    ensures StringsFrom(m', argv, copy, rsp, i)
    ensures Outside(m, m', copy[i], copy[i] + |argv[i]| + 1)
  {
    hide Need;
    NeedStep(argv, i);
    assert StringAt(m', copy[i], argv[i]);
    forall j | i < j < |argv|
      ensures StringAt(m', copy[j], argv[j])
    {
      NeedMonotone(argv, i + 1, j);
      assert StringAt(m, copy[j], argv[j]);
      StringKept(m, m', copy[i], copy[i] + |argv[i]| + 1, copy[j], argv[j]);
    }
  }

  lemma NeedStep(argv: seq<seq<byte>>, i: nat)
    requires i < |argv|
    ensures Need(argv, i) == |argv[i]| + 1 + Need(argv, i + 1)
  {
  }

  lemma StringsKept(m: seq<byte>, m': seq<byte>, argv: seq<seq<byte>>, copy: seq<nat>, rsp: nat, lo: int, hi: int)
    requires StringsFrom(m, argv, copy, rsp, 0) && Outside(m, m', lo, hi) && hi <= rsp - Need(argv, 0)
    ensures StringsFrom(m', argv, copy, rsp, 0)
  {
    hide Need;
    forall j | 0 <= j < |argv|
      ensures StringAt(m', copy[j], argv[j])
    {
      NeedMonotone(argv, 0, j);
      StringKept(m, m', lo, hi, copy[j], argv[j]);
    }
  }

  lemma PointersKept(m: seq<byte>, m': seq<byte>, copy: seq<nat>, base: nat, i: nat, lo: int)
    requires PointersFrom(m, copy, base, i) && Outside(m, m', lo, base + 8 * i)
    ensures PointersFrom(m', copy, base, i)
  {
    forall j | i <= j < |copy|
      ensures WordOr0(m', base + 8 * j) == copy[j]
    {
      WordKept(m, m', lo, base + 8 * i, base + 8 * j);
    }
  }

  /** A memory laid out like that reads back as the arguments. */
  lemma ReadsBack(m: seq<byte>, argv: seq<seq<byte>>, copy: seq<nat>, rsp: nat, sp: nat)
    requires NulFree(argv) && StringsFrom(m, argv, copy, rsp, 0) && PointersFrom(m, copy, sp + 8, 0)
    requires ReadArgc(m, sp) == |argv|
    ensures ReadArgv(m, sp) == argv
  {
    hide Need, WordOr0, CString;
    var r := ReadArgv(m, sp);
    forall j | 0 <= j < |argv|
      ensures r[j] == argv[j]
    {
      assert ReadPointer(m, sp, j) == copy[j];
      assert argv[j] in argv;
      CStringIs(m, copy[j], argv[j]);
    }
  }

  // ---------------------------------------------------------------- the hypervisor's side

  method Memcpy(ram: Ram, at: nat, s: seq<byte>)
    requires ram.origin == 0 && ram.Has(at, |s|)
    modifies ram
    ensures ram.bytes == old(ram.bytes)[..at] + s + old(ram.bytes)[at + |s|..]
  {
    ram.bytes := ram.bytes[..at] + s + ram.bytes[at + |s|..];
  }

  /** The first loop: strings from the last to the first, downwards from rsp. */
  method CopyStrings(ram: Ram, rsp: nat, argv: seq<seq<byte>>, copy: array<nat>) returns (sp: nat)
    requires ram.origin == 0 && Need(argv, 0) <= rsp <= |ram.bytes|
    requires copy.Length == |argv|
    modifies ram, copy
    ensures sp == rsp - Need(argv, 0)
    ensures StringsFrom(ram.bytes, argv, copy[..], rsp, 0)
    ensures Outside(old(ram.bytes), ram.bytes, sp, rsp)
  {
    hide Need, StringAt;
    ghost var m0 := ram.bytes;
    NoNeed(argv);
    sp := rsp;
    var i := |argv|;
    while i > 0
      invariant 0 <= i <= |argv| && sp == rsp - Need(argv, i)
      invariant StringsFrom(ram.bytes, argv, copy[..], rsp, i)
      invariant Outside(m0, ram.bytes, sp, rsp)
    {
      i := i - 1;
      NeedStep(argv, i);
      NeedMonotone(argv, 0, i);
      var len := |argv[i]| + 1;
      ghost var m, top := ram.bytes, sp;
      sp := sp - len;
      copy[i] := sp;
      Memcpy(ram, sp, argv[i] + [0]);
      StringMore(m, ram.bytes, argv, copy[..], rsp, i);
      OutsideMore(m0, m, ram.bytes, sp, top, rsp);
    }
  }

  lemma NoNeed(argv: seq<seq<byte>>)
    ensures Need(argv, |argv|) == 0
  {
  }

  /** The second loop: the null word, then the pointers from the last to the first. */
  method CopyPointers(ram: Ram, top: nat, copy: array<nat>) returns (sp: nat)
    requires ram.origin == 0 && 8 * (copy.Length + 1) <= top <= |ram.bytes|
    requires forall j :: 0 <= j < copy.Length ==> copy[j] < 0x1_0000_0000_0000_0000
    modifies ram
    ensures sp == top - 8 * (copy.Length + 1)
    ensures PointersFrom(ram.bytes, copy[..], sp, 0) && WordOr0(ram.bytes, sp + 8 * copy.Length) == 0
    ensures Outside(old(ram.bytes), ram.bytes, sp, top)
  {
    hide WordOr0, Poke;
    ghost var m0, base := ram.bytes, top - 8 * (copy.Length + 1);
    sp := top - 8;
    PokeIs(ram.bytes, sp, 0);
    ram.StoreWord(sp, 0);
    var i := copy.Length;
    while i > 0
      invariant 0 <= i <= copy.Length && sp == base + 8 * i
      invariant PointersFrom(ram.bytes, copy[..], base, i) && WordOr0(ram.bytes, base + 8 * copy.Length) == 0
      invariant Outside(m0, ram.bytes, sp, top)
    {
      i := i - 1;
      ghost var m := ram.bytes;
      sp := sp - 8;
      PokeIs(ram.bytes, sp, copy[i]);
      ram.StoreWord(sp, copy[i]);
      PointersKept(m, ram.bytes, copy[..], base, i + 1, sp);
      WordKept(m, ram.bytes, sp, sp + 8, base + 8 * copy.Length);
      OutsideMore(m0, m, ram.bytes, sp, sp + 8, top);
    }
  }

  /** copy_argv: returns the new rsp. The guest memory starts at offset 0, page aligned. */
  method CopyArgv(ram: Ram, rsp: nat, argv: seq<seq<byte>>) returns (sp: nat)
    requires ram.origin == 0 && rsp <= |ram.bytes| < 0x1_0000_0000_0000_0000
    requires NulFree(argv) && 0 <= FinalSp(rsp, argv)
    modifies ram
    ensures sp == FinalSp(rsp, argv) && sp % 8 == 0
    ensures ReadArgc(ram.bytes, sp) == |argv| && ReadArgv(ram.bytes, sp) == argv
    ensures ReadPointer(ram.bytes, sp, |argv|) == 0
    ensures forall i :: 0 <= i < |argv| ==>
      sp + 8 * (|argv| + 2) <= ReadPointer(ram.bytes, sp, i) == rsp - Need(argv, i)
    ensures forall i :: 0 <= i < |argv| ==>
      ReadPointer(ram.bytes, sp, i) + |argv[i]| + 1 == if i + 1 == |argv| then rsp else ReadPointer(ram.bytes, sp, i + 1)
    ensures
      var low, top := if argv == [] then rsp else ReadPointer(ram.bytes, sp, 0), sp + 8 * (|argv| + 2);
      top % 16 == 0 && low - 16 < top <= low
    ensures Outside(old(ram.bytes), ram.bytes, sp, rsp)
    ensures sp <= rsp && (rsp - 0x4000 <= sp <==> FitsStack(rsp, argv))
    ensures FitsStack(rsp, argv) ==> Outside(old(ram.bytes), ram.bytes, rsp - 0x4000, rsp)
  {
    hide Need, Poke, WordOr0, Outside, ReadArgv, StringsFrom, PointersFrom, FinalSp, FitsStack;
    ghost var m0 := ram.bytes;
    Aligned(rsp, argv);
    var copy := new nat[|argv|];
    sp := CopyStrings(ram, rsp, argv, copy);
    ghost var m1, low := ram.bytes, sp;
    CopiesSmall(m1, argv, copy[..], rsp);
    OutsideSize(m0, m1, low, rsp);
    sp := sp - sp % 16;
    ghost var top := sp;
    sp := CopyPointers(ram, sp, copy);
    ghost var m2 := ram.bytes;
    OutsideSize(m1, m2, sp, top);
    sp := sp - 8;
    PokeIs(m2, sp, |argv|);
    ram.StoreWord(sp, |argv|);
    Handover(m0, m1, m2, ram.bytes, argv, copy[..], rsp, low, top, sp);
    Adjoining(ram.bytes, rsp, argv, sp);
    StackNeed(rsp, argv);
    if FitsStack(rsp, argv) {
      OutsideDown(m0, ram.bytes, rsp - KERNEL_STACK_SIZE, sp, rsp);
    }
  }

  /** The strings adjoin, up to rsp; below them at most 15 bytes of padding. */
  lemma Adjoining(m: seq<byte>, rsp: nat, argv: seq<seq<byte>>, sp: nat)
    requires sp == FinalSp(rsp, argv) && Need(argv, 0) <= rsp
    requires forall i :: 0 <= i < |argv| ==> ReadPointer(m, sp, i) == rsp - Need(argv, i)
    ensures forall i :: 0 <= i < |argv| ==>
      ReadPointer(m, sp, i) + |argv[i]| + 1 == if i + 1 == |argv| then rsp else ReadPointer(m, sp, i + 1)
    ensures
      var low, top := if argv == [] then rsp else ReadPointer(m, sp, 0), sp + 8 * (|argv| + 2);
      top % 16 == 0 && low - 16 < top <= low
  {
    hide ReadPointer, Need;
    NoNeed(argv);
    forall i | 0 <= i < |argv|
      ensures ReadPointer(m, sp, i) + |argv[i]| + 1 == if i + 1 == |argv| then rsp else ReadPointer(m, sp, i + 1)
    {
      NeedStep(argv, i);
    }
    DownToSixteen(rsp - Need(argv, 0));
  }

  lemma DownToSixteen(low: nat)
    ensures (low - low % 16) % 16 == 0
  {
  }

  lemma StackNeed(rsp: nat, argv: seq<seq<byte>>)
    ensures FitsStack(rsp, argv) <==> rsp - KERNEL_STACK_SIZE <= FinalSp(rsp, argv)
  {
    hide Need;
  }

  lemma Aligned(rsp: nat, argv: seq<seq<byte>>)
    requires FinalSp(rsp, argv) >= 0
    ensures
      var low := rsp - Need(argv, 0);
      && low >= 0 && FinalSp(rsp, argv) == low - low % 16 - 8 * (|argv| + 2) <= rsp
      && FinalSp(rsp, argv) % 8 == 0
  {
    hide Need;
    var low := rsp - Need(argv, 0);
    assert low - low % 16 == 16 * (low / 16);
    assert FinalSp(rsp, argv) == 8 * (2 * (low / 16) - |argv| - 2);
  }

  /** The three stages of writing, put together. */
  lemma Handover(m0: seq<byte>, m1: seq<byte>, m2: seq<byte>, m3: seq<byte>, argv: seq<seq<byte>>, copy: seq<nat>,
                 rsp: nat, low: nat, top: nat, sp: nat)
    requires NulFree(argv) && StringsFrom(m1, argv, copy, rsp, 0)
    requires low == rsp - Need(argv, 0) && top <= low && sp + 8 + 8 * (|argv| + 1) == top
    requires Outside(m0, m1, low, rsp) && Outside(m1, m2, sp + 8, top) && Outside(m2, m3, sp, sp + 8)
    requires PointersFrom(m2, copy, sp + 8, 0) && WordOr0(m2, sp + 8 + 8 * |argv|) == 0
    requires WordOr0(m3, sp) == |argv|
    ensures ReadArgc(m3, sp) == |argv| && ReadArgv(m3, sp) == argv && ReadPointer(m3, sp, |argv|) == 0
    ensures forall i :: 0 <= i < |argv| ==> top <= ReadPointer(m3, sp, i) == rsp - Need(argv, i)
    ensures Outside(m0, m3, sp, rsp)
  {
    hide Need, WordOr0, Outside, ReadArgv, StringsFrom, PointersFrom;
    PointersKept(m2, m3, copy, sp + 8, 0, sp);
    WordKept(m2, m3, sp, sp + 8, sp + 8 + 8 * |argv|);
    OutsideMore(m1, m2, m3, sp, sp + 8, top);
    StringsKept(m1, m3, argv, copy, rsp, sp, top);
    ReadsBack(m3, argv, copy, rsp, sp);
    OutsideUp(m1, m3, sp, top, low);
    OutsideMore(m0, m1, m3, sp, low, rsp);
    PointersAre(m3, argv, copy, rsp, sp);
  }

  lemma PointersAre(m: seq<byte>, argv: seq<seq<byte>>, copy: seq<nat>, rsp: nat, sp: nat)
    requires StringsFrom(m, argv, copy, rsp, 0) && PointersFrom(m, copy, sp + 8, 0)
    ensures forall i :: 0 <= i < |argv| ==> rsp - Need(argv, 0) <= ReadPointer(m, sp, i) == rsp - Need(argv, i)
  {
    hide Need, WordOr0, StringAt;
    CopiesSmall(m, argv, copy, rsp);
    forall i | 0 <= i < |argv|
      ensures ReadPointer(m, sp, i) == rsp - Need(argv, i)
    {
      assert copy[i] == rsp - Need(argv, i);
    }
  }

  lemma CopiesSmall(m: seq<byte>, argv: seq<seq<byte>>, copy: seq<nat>, rsp: nat)
    requires StringsFrom(m, argv, copy, rsp, 0)
    ensures forall j :: 0 <= j < |copy| ==> rsp - Need(argv, 0) <= copy[j] <= rsp && copy[j] == rsp - Need(argv, j)
  {
    hide StringAt, Need;
    forall j | 0 <= j < |argv|
      ensures Need(argv, j) <= Need(argv, 0)
    {
      NeedMonotone(argv, 0, j);
    }
  }

  lemma OutsideSize(m: seq<byte>, m': seq<byte>, lo: int, hi: int)
    requires Outside(m, m', lo, hi)
    ensures |m'| == |m|
  {
  }

  lemma OutsideUp(m: seq<byte>, m': seq<byte>, lo: int, hi: int, hi': int)
    requires Outside(m, m', lo, hi) && hi <= hi'
    ensures Outside(m, m', lo, hi')
  {
  }

  lemma OutsideDown(m: seq<byte>, m': seq<byte>, lo': int, lo: int, hi: int)
    requires Outside(m, m', lo, hi) && lo' <= lo
    ensures Outside(m, m', lo', hi)
  {
  }
}
