/** Writing the flash of the CPUs with a boot protocol: records become a ROM image and a table of
    dirty pages, dirty pages become checksummed frames, and a device that parses the frames ends
    up holding the image. */
module Flash {
  import opened ByteMemory
  import opened Bits
  import opened Checksum
  import opened SRecord

  const WRITE_128_COM: byte := 0x50
  const ROM_SIZE: nat := 0x80000
  const PAGES: nat := 0x8000

  // ---------------------------------------------------------------- pages

  /** x >> bits */
  function PageOf(x: nat, bits: nat): nat {
    Quot(x, Pow2(bits))
  }

  /** The loop that looks for the bit number of the page size: the least one that reaches it. */
  method PageBit(pagesize: nat) returns (pagebit: nat)
    ensures pagebit <= 16
    ensures pagesize <= 0x10000 ==> pagesize <= Pow2(pagebit)
    ensures pagebit > 0 ==> Pow2(pagebit - 1) < pagesize
  {
    Pow2At32();
    pagebit := 0;
    var i := 1;
    while i < 0x10000
      invariant pagebit <= 16 && i == Pow2(pagebit)
      invariant pagebit > 0 ==> Pow2(pagebit - 1) < pagesize
      decreases 0x10000 - i
    {
      if pagesize <= i {
        break;
      }
      BelowSixteen(pagebit);
      pagebit := pagebit + 1;
      i := i * 2;
    }
  }

  lemma BelowSixteen(b: nat)
    requires Pow2(b) < 0x10000
    ensures b < 16
  {
    hide Pow2;
    Pow2At32();
    Pow2Below(b, 16);
  }

  lemma PageBitUnique(pagesize: nat, a: nat, b: nat)
    requires pagesize <= Pow2(a) && (a > 0 ==> Pow2(a - 1) < pagesize)
    requires pagesize <= Pow2(b) && (b > 0 ==> Pow2(b - 1) < pagesize)
    ensures a == b
  {
    hide Pow2;
    if a < b {
      Pow2Monotone(a, b - 1);
    } else if b < a {
      Pow2Monotone(b, a - 1);
    }
  }

  /** So it finds the exponent of any power of two up to 2^16, and then i << pagebit is the
      address of page i. */
  lemma PageBitExact(pagesize: nat, pagebit: nat, k: nat)
    requires k <= 16 && pagesize == Pow2(k) && pagesize <= Pow2(pagebit)
    requires pagebit > 0 ==> Pow2(pagebit - 1) < pagesize
    ensures pagebit == k
  {
    hide Pow2;
    if k > 0 {
      Pow2Twice(k - 1);
    }
    PageBitUnique(pagesize, pagebit, k);
  }

  /** For any other page size the address sent, i << pagebit, is that of page 0 alone. */
  lemma PageAddressIff(pagesize: nat, pagebit: nat, i: nat)
    requires i > 0
    ensures i * Pow2(pagebit) == PageStart(i, pagesize) <==> pagesize == Pow2(pagebit)
  {
    hide Pow2;
    var p := Pow2(pagebit);
    assert i * p - i * pagesize == i * (p - pagesize);
  }

  lemma PageMonotone(x: nat, y: nat, bits: nat)
    requires x <= y
    ensures PageOf(x, bits) <= PageOf(y, bits)
  {
    hide Pow2;
    QuotMonotone(x, y, Pow2(bits));
  }

  lemma QuotMonotone(x: nat, y: nat, d: nat)
    requires 0 < d && x <= y
    ensures Quot(x, d) <= Quot(y, d)
  {
    var k := x / d - y / d;
    assert d * k == (x - x % d) - (y - y % d);
    assert k >= 1 ==> d * k >= d;
  }

  // ---------------------------------------------------------------- dirty pages

  ghost predicate Spans(a: int, n: int, bits: nat, p: nat) {
    exists x: nat :: a <= x < a + n && PageOf(x, bits) == p
  }

  lemma SpansMore(a: nat, n: nat, bits: nat)
    ensures forall p :: Spans(a, n + 1, bits, p) <==> Spans(a, n, bits, p) || PageOf(a + n, bits) == p
  {
    hide PageOf;
    var last := a + n;
    assert Spans(a, n + 1, bits, PageOf(last, bits));
  }

  /** Some record has a byte on page p. */
  ghost predicate Dirty(recs: seq<Record>, bits: nat, p: nat) {
    if recs == [] then false
    else Dirty(recs[..|recs| - 1], bits, p) || Marks(recs[|recs| - 1], bits, p)
  }

  ghost predicate Marks(rec: Record, bits: nat, p: nat) {
    rec.Taken? && Spans(rec.addr, |rec.bytes|, bits, p)
  }

  /** The record covers a byte of page p. */
  ghost predicate Touches(rec: Record, bits: nat, p: nat) {
    exists x: nat :: Covers(rec, x) && PageOf(x, bits) == p
  }

  lemma TouchesIs(rec: Record, bits: nat, p: nat)
    ensures Touches(rec, bits, p) <==> Marks(rec, bits, p)
  {
    hide PageOf;
  }

  /** A page is dirty exactly when some record of the file covers a byte of it. */
  lemma {:induction false} DirtyMeans(recs: seq<Record>, bits: nat, p: nat)
    ensures Dirty(recs, bits, p) <==> exists rec :: rec in recs && Touches(rec, bits, p)
    decreases recs
  {
    hide PageOf, Touches, Marks;
    if recs != [] {
      var init, rec := recs[..|recs| - 1], recs[|recs| - 1];
      assert forall r :: r in recs <==> r in init || r == rec;
      TouchesIs(rec, bits, p);
      DirtyMeans(init, bits, p);
    }
  }

  /** A byte on a clean page is erased in the image. */
  lemma {:induction false} CleanErased(recs: seq<Record>, bits: nat, x: nat)
    requires !Dirty(recs, bits, PageOf(x, bits))
    ensures ImageAt(recs, x) == 0xff
    decreases recs
  {
    hide PageOf;
    if recs != [] {
      CleanErased(recs[..|recs| - 1], bits, x);
    }
  }

  // ---------------------------------------------------------------- frames and the device

  /** What put_long sends. */
  function BigEndian(addr: nat): (s: seq<byte>)
    ensures |s| == 4
  {
    [addr / 0x100_0000 % 256, addr / 0x1_0000 % 256, addr / 0x100 % 256, addr % 256]
  }

  function Number(s: seq<byte>): nat
    requires |s| == 4
  {
    s[3] as nat + 256 * (s[2] as nat + 256 * (s[1] as nat + 256 * s[0] as nat))
  }

  lemma LowByteOf(v: nat)
    ensures v == v % 0x100 + 256 * (v / 0x100)
  {
  }

  lemma Shifted(v: nat)
    ensures v / 0x100 / 0x100 == v / 0x1_0000 && v / 0x1_0000 / 0x100 == v / 0x100_0000
  {
  }

  lemma NumberRead(addr: nat)
    requires addr < 0x1_0000_0000
    ensures Number(BigEndian(addr)) == addr
  {
    Shifted(addr);
    LowByteOf(addr);
    LowByteOf(addr / 0x100);
    LowByteOf(addr / 0x1_0000);
    assert addr / 0x100_0000 % 256 == addr / 0x100_0000;
  }

  /** The bytes with the one that makes their sum 0 modulo 256. */
  function Checked(s: seq<byte>): seq<byte> {
    s + [(256 - Sum(s) % 256) % 256]
  }

  lemma CheckedSum(s: seq<byte>)
    ensures Sum(Checked(s)) % 256 == 0
  {
    hide Sum;
    SumMore(s, (256 - Sum(s) % 256) % 256);
  }

  function PageStart(i: nat, size: nat): nat {
    i * size
  }

  function Frame(rom: seq<byte>, i: nat, size: nat): seq<byte>
    requires PageStart(i, size) + size <= |rom|
  {
    var a := PageStart(i, size);
    Checked([0x50] + BigEndian(a) + rom[a..a + size])
  }

  function EndFrame(): seq<byte> {
    Checked([0x50, 0xff, 0xff, 0xff, 0xff])
  }

  lemma PageInside(i: nat, n: nat, size: nat)
    requires i < n
    ensures PageStart(i, size) + size <= PageStart(n, size)
  {
    var k := n - i - 1;
    assert (i + 1 + k) * size == i * size + size + k * size;
  }

  /** The frames of the enabled pages from page i on. */
  ghost function FramesFrom(rom: seq<byte>, enable: seq<byte>, i: nat, size: nat): seq<byte>
    requires i <= |enable| && PageStart(|enable|, size) == |rom|
    decreases |enable| - i
  {
    if i == |enable| then []
    else
      PageInside(i, |enable|, size);
      (if enable[i] == 1 then Frame(rom, i, size) else []) + FramesFrom(rom, enable, i + 1, size)
  }

  /** The frame that is sent for page i: the address is i << bits, the bytes start at i * size. */
  function PageFrame(rom: seq<byte>, i: nat, bits: nat, size: nat): seq<byte>
    requires PageStart(i, size) + size <= |rom|
  {
    var a := PageStart(i, size);
    Checked([0x50] + BigEndian(PageStart(i, Pow2(bits))) + rom[a..a + size])
  }

  /** Any page but the first goes out with its own address exactly where the page size is a power
      of two, the one that the loop found. */
  lemma FrameRightIff(rom: seq<byte>, i: nat, bits: nat, size: nat)
    requires i > 0 && PageStart(i, size) + size <= |rom| <= 0x1_0000_0000
    requires PageStart(i, Pow2(bits)) < 0x1_0000_0000 && PageStart(i, size) < 0x1_0000_0000
    ensures PageFrame(rom, i, bits, size) == Frame(rom, i, size) <==> size == Pow2(bits)
  {
    hide Pow2, Sum, BigEndian, Number;
    var a, a' := PageStart(i, size), PageStart(i, Pow2(bits));
    PageAddressIff(size, bits, i);
    NumberRead(a);
    NumberRead(a');
    assert PageFrame(rom, i, bits, size)[1..5] == BigEndian(a');
    assert Frame(rom, i, size)[1..5] == BigEndian(a);
  }

  /** In bytes: the command, the address with its top byte first, the page, and a byte that makes the
      sum of all of them 0 modulo 256. */
  lemma FrameBytes(rom: seq<byte>, i: nat, bits: nat, size: nat)
    requires PageStart(i, size) + size <= |rom| && i * Pow2(bits) < 0x1_0000_0000
    ensures
      var f, a := PageFrame(rom, i, bits, size), i * Pow2(bits);
      && |f| == size + 6 && Sum(f) % 256 == 0
      && f[0] == 0x50 && f[5..size + 5] == rom[i * size..i * size + size]
      && a == f[1] as int * 0x100_0000 + f[2] as int * 0x1_0000 + f[3] as int * 0x100 + f[4] as int
  {
    hide Sum, Pow2;
    var a := PageStart(i, Pow2(bits));
    FourBytes(a);
    CheckedSum([0x50] + BigEndian(a) + rom[PageStart(i, size)..PageStart(i, size) + size]);
  }

  lemma FourBytes(a: nat)
    requires a < 0x1_0000_0000
    ensures
      var s := BigEndian(a);
      a == s[0] as int * 0x100_0000 + s[1] as int * 0x1_0000 + s[2] as int * 0x100 + s[3] as int
  {
    hide BigEndian;
    NumberRead(a);
  }

  lemma EndFrameBytes()
    ensures EndFrame() == [0x50, 0xff, 0xff, 0xff, 0xff, 0xb4]
  {
    hide Sum;
    NoSum();
    SumMore([], 0x50);
    SumMore([0x50], 0xff);
    SumMore([0x50, 0xff], 0xff);
    SumMore([0x50, 0xff, 0xff], 0xff);
    SumMore([0x50, 0xff, 0xff, 0xff], 0xff);
    assert [] + [0x50] == [0x50] && [0x50] + [0xff] == [0x50, 0xff] && [0x50, 0xff] + [0xff] == [0x50, 0xff, 0xff];
    assert [0x50, 0xff, 0xff] + [0xff] == [0x50, 0xff, 0xff, 0xff];
    assert [0x50, 0xff, 0xff, 0xff] + [0xff] == [0x50, 0xff, 0xff, 0xff, 0xff];
  }

  /** The frames that are sent for the enabled pages from i up to n. */
  ghost function PagesSent(rom: seq<byte>, enable: seq<byte>, i: nat, n: nat, bits: nat, size: nat): seq<byte>
    requires i <= n <= |enable| && PageStart(n, size) <= |rom|
    decreases n - i
  {
    if i == n then []
    else
      PageInside(i, n, size);
      (if enable[i] == 1 then PageFrame(rom, i, bits, size) else []) + PagesSent(rom, enable, i + 1, n, bits, size)
  }

  /** Where the page size is a power of two they are the frames of the ROM. */
  lemma {:induction false} SentIsFrames(rom: seq<byte>, enable: seq<byte>, i: nat, n: nat, bits: nat, size: nat)
    requires i <= n <= |enable| && PageStart(n, size) <= |rom| && size == Pow2(bits)
    ensures PagesSent(rom, enable, i, n, bits, size) == FramesFrom(rom[..PageStart(n, size)], enable[..n], i, size)
    decreases n - i
  {
    hide PageStart, Pow2, BigEndian, Checked;
    if i < n {
      PageInside(i, n, size);
      var a := PageStart(i, size);
      assert rom[..PageStart(n, size)][a..a + size] == rom[a..a + size];
      SentIsFrames(rom, enable, i + 1, n, bits, size);
    }
  }

  datatype Device = Broken | Programmed(flash: seq<byte>)

  /** The boot program in the device: each frame is the command, a big-endian address, a page and
      a byte that makes the sum 0; address 0xffffffff ends the writing. */
  ghost function Run(log: seq<byte>, size: nat, flash: seq<byte>): Device
    decreases |log|
  {
    if |log| < 6 || log[0] != 0x50 then Broken
    else
      var a := Number(log[1..5]);
      if a == 0xffff_ffff then if |log| == 6 && Sum(log) % 256 == 0 then Programmed(flash) else Broken
      else if |log| < size + 6 || Sum(log[..size + 6]) % 256 != 0 || a + size > |flash| then Broken
      else Run(log[size + 6..], size, flash[..a] + log[5..size + 5] + flash[a + size..])
  }

  function Overlaid(flash: seq<byte>, rom: seq<byte>, i: nat, size: nat): (r: seq<byte>)
    requires PageStart(i, size) + size <= |rom| == |flash|
    ensures |r| == |flash|
  {
    var a := PageStart(i, size);
    flash[..a] + rom[a..a + size] + flash[a + size..]
  }

  lemma Slices(com: byte, addr: seq<byte>, page: seq<byte>, check: byte, more: seq<byte>, size: nat)
    requires |addr| == 4 && |page| == size
    ensures
      var f := [com] + addr + page + [check];
      && |f| == size + 6 && (f + more)[..size + 6] == f && (f + more)[size + 6..] == more
      && (f + more)[0] == com && (f + more)[1..5] == addr && (f + more)[5..size + 5] == page
  {
  }

  lemma RunStep(log: seq<byte>, size: nat, flash: seq<byte>)
    requires |log| >= size + 6 && log[0] == 0x50 && Sum(log[..size + 6]) % 256 == 0
    requires Number(log[1..5]) != 0xffff_ffff && Number(log[1..5]) + size <= |flash|
    ensures
      var a := Number(log[1..5]);
      Run(log, size, flash) == Run(log[size + 6..], size, flash[..a] + log[5..size + 5] + flash[a + size..])
  {
    hide Sum, Number;
  }

  /** A frame is accepted, and its page lands where it came from. */
  lemma FrameRun(rom: seq<byte>, i: nat, size: nat, more: seq<byte>, flash: seq<byte>)
    requires PageStart(i, size) + size <= |rom| == |flash| < 0xffff_ffff
    ensures Run(Frame(rom, i, size) + more, size, flash) == Run(more, size, Overlaid(flash, rom, i, size))
  {
    hide Sum, BigEndian, PageStart, Number, Run;
    var a := PageStart(i, size);
    var head := [0x50] + BigEndian(a) + rom[a..a + size];
    NumberRead(a);
    CheckedSum(head);
    Slices(0x50, BigEndian(a), rom[a..a + size], (256 - Sum(head) % 256) % 256, more, size);
    RunStep(Frame(rom, i, size) + more, size, flash);
  }

  lemma EndRun(size: nat, flash: seq<byte>)
    ensures Run(EndFrame(), size, flash) == Programmed(flash)
  {
    hide Sum;
    var f := EndFrame();
    CheckedSum([0x50, 0xff, 0xff, 0xff, 0xff]);
    assert f[1..5] == [0xff, 0xff, 0xff, 0xff];
  }

  /** The flash after the frames from page i on. */
  ghost function Written(flash: seq<byte>, rom: seq<byte>, enable: seq<byte>, i: nat, size: nat): (r: seq<byte>)
    requires i <= |enable| && PageStart(|enable|, size) == |rom| == |flash|
    ensures |r| == |rom|
    decreases |enable| - i
  {
    if i == |enable| then flash
    else
      PageInside(i, |enable|, size);
      Written(if enable[i] == 1 then Overlaid(flash, rom, i, size) else flash, rom, enable, i + 1, size)
  }

  lemma {:induction false} FramesRun(rom: seq<byte>, enable: seq<byte>, i: nat, size: nat, flash: seq<byte>)
    requires i <= |enable| && PageStart(|enable|, size) == |rom| == |flash| < 0xffff_ffff
    ensures Run(FramesFrom(rom, enable, i, size) + EndFrame(), size, flash) ==
      Programmed(Written(flash, rom, enable, i, size))
    decreases |enable| - i
  {
    hide Run, Frame, PageStart, EndFrame, Overlaid;
    if i == |enable| {
      EndRun(size, flash);
      assert [] + EndFrame() == EndFrame();
    } else {
      PageInside(i, |enable|, size);
      var more := FramesFrom(rom, enable, i + 1, size);
      if enable[i] == 1 {
        FrameRun(rom, i, size, more + EndFrame(), flash);
        assert (Frame(rom, i, size) + more) + EndFrame() == Frame(rom, i, size) + (more + EndFrame());
        FramesRun(rom, enable, i + 1, size, Overlaid(flash, rom, i, size));
      } else {
        assert [] + more == more;
        FramesRun(rom, enable, i + 1, size, flash);
      }
    }
  }

  /** Byte by byte: enabled pages come from the image, the others stay. */
  lemma {:induction false} WrittenAt(flash: seq<byte>, rom: seq<byte>, enable: seq<byte>, i: nat, size: nat, p: nat, x: nat)
    requires i <= |enable| && p < |enable| && PageStart(|enable|, size) == |rom| == |flash|
    requires PageStart(p, size) <= x < PageStart(p, size) + size && x < |rom|
    ensures Written(flash, rom, enable, i, size)[x] == if i <= p && enable[p] == 1 then rom[x] else flash[x]
    decreases |enable| - i
  {
    hide PageStart, Overlaid;
    if i < |enable| {
      PageInside(i, |enable|, size);
      var flash' := if enable[i] == 1 then Overlaid(flash, rom, i, size) else flash;
      if enable[i] == 1 {
        OverlaidAt(flash, rom, i, size, p, x);
      }
      WrittenAt(flash', rom, enable, i + 1, size, p, x);
    }
  }

  lemma OverlaidAt(flash: seq<byte>, rom: seq<byte>, i: nat, size: nat, p: nat, x: nat)
    requires PageStart(i, size) + size <= |rom| == |flash|
    requires PageStart(p, size) <= x < PageStart(p, size) + size && x < |rom|
    ensures Overlaid(flash, rom, i, size)[x] == if p == i then rom[x] else flash[x]
  {
    hide PageStart;
    if p < i {
      PageInside(p, i, size);
    } else if i < p {
      PageInside(i, p, size);
    }
  }
}
