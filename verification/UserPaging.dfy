/** The kernel's page tables: built lazily out of zeroed, page-aligned kmalloc blocks, and proved
    to be a plain map from user pages to frames and permissions. */
module UserPaging {
  import opened ByteMemory
  import opened HeapModel
  import opened HeapRuns
  import opened ChunkList
  import opened Kmalloc
  import opened PageWalk

  const KERNEL_BASE: nat := 0x80_0000_0000          // bit 39
  const KERNEL_WINDOW: nat := 0x4000_0000           // what init_pagetable maps
  const LARGE_PAGE: nat := 0x20_0000                // KERNEL_PAGING_SIZE, MIN_USER_MEM
  const PRESENT: nat := 1
  const RW: nat := 2
  const USER: nat := 4
  const PS: nat := 0x80
  const PROT_R: nat := 1
  const PROT_W: nat := 2

  /** USER_MEM_RANGE_OK. From 2^47 on the addresses it admits are not canonical: the processor
      faults on them before it walks the tables, and what is said of them here is about the walk
      alone. */
  predicate UserRangeOk(v: nat) {
    v >= LARGE_PAGE && v / LINEAR_LIMIT == 0 && v / KERNEL_BASE != 1
  }

  /** What is admitted: 48-bit addresses but for the boot page and the kernel's entry of the topmost
      table. */
  lemma UserRangeIs(v: nat)
    ensures UserRangeOk(v) <==> 0x20_0000 <= v < 0x1_0000_0000_0000 && !(0x80_0000_0000 <= v < 0x100_0000_0000)
    ensures UserRangeOk(v) <==> v / 0x20_0000 != 0 && v / 0x80_0000_0000 != 1 && v / 0x80_0000_0000 < 512
  {
  }

  /** e | bit, for a power of two. */
  function WithFlag(e: nat, bit: nat): nat
    requires bit > 0
  {
    if e / bit % 2 == 1 then e else e + bit
  }

  /** e & ~bit, for a power of two. */
  function Without(e: nat, bit: nat): nat
    requires bit > 0
  {
    if e / bit % 2 == 1 then e - bit else e
  }

  predicate HasFlag(e: nat, bit: nat)
    requires bit > 0
  {
    e / bit % 2 == 1
  }

  /** The leaf entry add_trans_user writes. */
  function LeafEntry(paddr: nat, prot: nat): nat {
    var e := WithFlag(Without(paddr, KERNEL_BASE), PRESENT);
    var e := if HasFlag(prot, PROT_R) then WithFlag(e, USER) else e;
    if HasFlag(prot, PROT_W) then WithFlag(e, RW) else e
  }

  /** physical(): the kernel-window pointer without its window bit; None where the C code panics. */
  function Physical(p: nat): Option<nat> {
    if HasFlag(p, KERNEL_BASE) then Some(p - KERNEL_BASE) else None
  }

  // ---------------------------------------------------------------- entries

  lemma Halves(e: nat, a: nat, b: nat)
    requires e == 2 * a + b && b < 2
    ensures e / 2 == a && e % 2 == b
  {
  }

  lemma Quarters(e: nat, a: nat, b: nat, c: nat)
    requires e == 4 * a + 2 * b + c && b < 2 && c < 2
    ensures e / 4 == a && e / 2 % 2 == b
  {
    Halves(e, 2 * a + b, c);
    Halves(2 * a + b, a, b);
  }

  /** The low bits of a page-aligned value are free for flags. */
  lemma PageFlags(q: nat, w: nat, u: nat)
    requires w < 2 && u < 2
    ensures
      var e := 0x1000 * q + 1 + 2 * w + 4 * u;
      && e % 2 == 1 && e / 2 % 2 == w && e / 4 % 2 == u && e / 0x80 % 2 == 0 && e / 0x1000 == q && e % 0x1000 < 8
  {
    var e := 0x1000 * q + 1 + 2 * w + 4 * u;
    Halves(e, 0x800 * q + w + 2 * u, 1);
    Quarters(e, 0x400 * q + u, w, 1);
    Halves(0x400 * q + u, 0x200 * q, u);
    HighBits(e, q, 1 + 2 * w + 4 * u);
  }

  lemma HighBits(e: nat, q: nat, r: nat)
    requires e == 0x1000 * q + r && r < 8
    ensures e / 0x80 % 2 == 0 && e / 0x1000 == q && e % 0x1000 == r
  {
    assert e / 0x80 == 0x20 * q;
    Halves(0x20 * q, 0x10 * q, 0);
  }

  lemma TableEntry(t: nat)
    requires t % TABLE == 0 && t < KERNEL_WINDOW
    ensures Present(t + 7) && User(t + 7) && Writable(t + 7) && !Large(t + 7) && Frame(t + 7) == t
    ensures (t + 7) - (t + 7) % TABLE == t
  {
    PageFlags(t / TABLE, 1, 1);
  }

  /** For a page-aligned frame below 2^52, the leaf says exactly what was asked. */
  lemma LeafMeans(paddr: nat, prot: nat)
    requires paddr % TABLE == 0 && paddr < 0x10_0000_0000_0000
    ensures
      var e := LeafEntry(paddr, prot);
      && Present(e) && Frame(e) == Without(paddr, KERNEL_BASE)
      && (User(e) <==> HasFlag(prot, PROT_R)) && (Writable(e) <==> HasFlag(prot, PROT_W))
  {
    hide LeafEntry;
    LeafBits(paddr, prot);
    AlignedBits(paddr);
    WholeFrame(Without(paddr, KERNEL_BASE));
  }

  lemma AlignedBits(p: nat)
    requires p % 0x1000 == 0
    ensures p / 2 % 2 == 0 && p / 4 % 2 == 0
    ensures p >= 0x80_0000_0000 ==> (p - 0x80_0000_0000) % 0x1000 == 0
  {
    Quarters(p, 0x400 * (p / 0x1000), 0, 0);
    Halves(0x400 * (p / 0x1000), 0x200 * (p / 0x1000), 0);
  }

  lemma WholeFrame(f: nat)
    requires f % 0x1000 == 0 && f < 0x10_0000_0000_0000
    ensures f / 0x1000 % 0x100_0000_0000 * 0x1000 == f
  {
  }

  /** Setting the three flags, one after the other, in terms of the low three bits. */
  lemma FlagsSet(f: nat, q: nat, b0: nat, b1: nat, b2: nat, prot: nat)
    requires f == 8 * q + 4 * b2 + 2 * b1 + b0 && b0 < 2 && b1 < 2 && b2 < 2
    ensures
      var e := WithFlag(f, PRESENT);
      var e' := if HasFlag(prot, PROT_R) then WithFlag(e, USER) else e;
      (if HasFlag(prot, PROT_W) then WithFlag(e', RW) else e') ==
        8 * q + 4 * (if HasFlag(prot, PROT_R) then 1 else b2) + 2 * (if HasFlag(prot, PROT_W) then 1 else b1) + 1
  {
    LowBits(f, q, b0, b1, b2);
    LowBits(8 * q + 4 * b2 + 2 * b1 + 1, q, 1, b1, b2);
    LowBits(8 * q + 4 + 2 * b1 + 1, q, 1, b1, 1);
  }

  lemma LowBits(f: nat, q: nat, b0: nat, b1: nat, b2: nat)
    requires f == 8 * q + 4 * b2 + 2 * b1 + b0 && b0 < 2 && b1 < 2 && b2 < 2
    ensures f % 2 == b0 && f / 2 % 2 == b1 && f / 4 % 2 == b2 && f / 8 == q
  {
    Halves(f, 4 * q + 2 * b2 + b1, b0);
    Quarters(f, 2 * q + b2, b1, b0);
    Halves(2 * q + b2, q, b2);
    assert f / 4 == 2 * q + b2;
  }

  lemma ByEights(f: nat)
    ensures f / 0x1000 == f / 8 / 0x200
  {
  }

  /** The leaf for any address: present, the page of the address without bit 39, user-accessible and
      writable where prot asks for it or the address has the bit already. */
  lemma LeafBits(paddr: nat, prot: nat)
    ensures
      var e := LeafEntry(paddr, prot);
      && e % 2 == 1
      && (e / 4 % 2 == 1 <==> prot % 2 == 1 || paddr / 4 % 2 == 1)
      && (e / 2 % 2 == 1 <==> prot / 2 % 2 == 1 || paddr / 2 % 2 == 1)
      && e / 0x1000 == (if paddr / 0x80_0000_0000 % 2 == 1 then paddr - 0x80_0000_0000 else paddr) / 0x1000
  {
    var f := Without(paddr, KERNEL_BASE);
    var q, b0, b1, b2 := f / 8, f % 2, f / 2 % 2, f / 4 % 2;
    Eighths(f);
    Eighths(paddr);
    LowBits(f, q, b0, b1, b2);
    assert f != paddr ==> f == 8 * (paddr / 8 - 0x10_0000_0000) + paddr % 8;
    LowBits(paddr, paddr / 8, paddr % 2, paddr / 2 % 2, paddr / 4 % 2);
    LowBits(f, if f == paddr then paddr / 8 else paddr / 8 - 0x10_0000_0000, paddr % 2, paddr / 2 % 2, paddr / 4 % 2);
    FlagsSet(f, q, b0, b1, b2, prot);
    var e := LeafEntry(paddr, prot);
    LowBits(e, q, 1, if HasFlag(prot, PROT_W) then 1 else b1, if HasFlag(prot, PROT_R) then 1 else b2);
    ByEights(f);
    ByEights(e);
  }

  lemma Halved(n: nat, h: nat)
    requires h == n / 2
    ensures n == 2 * h + n % 2
  {
  }

  lemma HalfOfHalf(f: nat)
    ensures f / 2 / 2 == f / 4 && f / 4 / 2 == f / 8
  {
  }

  lemma Eighths(f: nat)
    ensures f == 8 * (f / 8) + 4 * (f / 4 % 2) + 2 * (f / 2 % 2) + f % 2
    ensures f % 8 == 4 * (f / 4 % 2) + 2 * (f / 2 % 2) + f % 2
  {
    HalfOfHalf(f);
    Halved(f, f / 2);
    Halved(f / 2, f / 4);
    Halved(f / 4, f / 8);
    RestOf(f, f / 8, 4 * (f / 4 % 2) + 2 * (f / 2 % 2) + f % 2);
  }

  lemma RestOf(f: nat, q: nat, r: nat)
    requires f == 8 * q + r && r < 8
    ensures f % 8 == r
  {
  }

  // ---------------------------------------------------------------- who owns the tables

  /** A table lies outside the arena, or is a live block of its own. */
  ghost predicate Owned(h: Heap, t: nat) {
    var p := KERNEL_BASE + t;
    || p + TABLE <= h.base || h.base + h.length <= p
    || (p - HEADER in h.live && h.live[p - HEADER].len == TABLE)
  }

  ghost predicate AllOwned(h: Heap, node: map<Key, nat>) {
    forall k :: k in node ==> Owned(h, node[k])
  }

  ghost predicate PageSame(m: seq<byte>, m': seq<byte>, t: nat) {
    |m'| == |m| && forall j :: t <= j < t + TABLE && j < |m| ==> m'[j] == m[j]
  }

  lemma EntriesSame(m: seq<byte>, m': seq<byte>, t: nat, i: nat)
    requires PageSame(m, m', t)
    ensures Entry(m', t, i) == Entry(m, t, i)
  {
    if Fits(m, t) && i < ENTRIES {
      LoadAgrees(m, m', t + 8 * i, WORD_SIZE);
    }
  }

  lemma OwnedKept(m: seq<byte>, m': seq<byte>, h: Heap, t: nat)
    requires Wf(h) && Keeps(m, m', KERNEL_BASE, h) && Owned(h, t)
    ensures PageSame(m, m', t)
  {
    hide Wf;
    LiveLens(h);
  }

  /** The allocator never touches a table. */
  lemma TablesKept(m: seq<byte>, m': seq<byte>, h: Heap, node: map<Key, nat>)
    requires Wf(h) && Keeps(m, m', KERNEL_BASE, h) && AllOwned(h, node)
    ensures forall k, i: nat :: k in node ==> Entry(m', node[k], i) == Entry(m, node[k], i)
  {
    hide Wf, Keeps, Owned, PageSame, Entry;
    forall k, i: nat | k in node
      ensures Entry(m', node[k], i) == Entry(m, node[k], i)
    {
      OwnedKept(m, m', h, node[k]);
      EntriesSame(m, m', node[k], i);
    }
  }

  /** A table entry written by the kernel leaves the allocator's own bookkeeping alone. */
  lemma TableStoreLaid(m: seq<byte>, first: nat, h: Heap, t: nat, i: nat, e: word)
    requires Laid(m, KERNEL_BASE, first, h) && Owned(h, t) && Fits(m, t) && i < ENTRIES
    ensures Laid(Poke(m, KERNEL_BASE, KERNEL_BASE + t + 8 * i, e), KERNEL_BASE, first, h)
    ensures Poke(m, KERNEL_BASE, KERNEL_BASE + t + 8 * i, e) == SetWord(m, t + 8 * i, e)
  {
    hide Wf, Linked, Sized, Same, SameBut, Word, SetWord, Keeps;
    var p := KERNEL_BASE + t;
    PokeSame(m, KERNEL_BASE, p + 8 * i, e);
    if p - HEADER in h.live && h.live[p - HEADER].len == TABLE {
      LiveStoreLaid(m, first, h, p, p + 8 * i, e);
    } else {
      LaidOutside(m, Poke(m, KERNEL_BASE, p + 8 * i, e), KERNEL_BASE, first, h, p + 8 * i, WORD_SIZE);
    }
  }

  lemma LiveStoreLaid(m: seq<byte>, first: nat, h: Heap, p: nat, q: nat, e: word)
    requires Laid(m, KERNEL_BASE, first, h) && p >= HEADER && p - HEADER in h.live
    requires p <= q && q + WORD_SIZE <= p + h.live[p - HEADER].len
    ensures Laid(Poke(m, KERNEL_BASE, q, e), KERNEL_BASE, first, h)
  {
    hide Wf, Linked, Sized, Same, SameBut, Poke, Keeps;
    PokeSame(m, KERNEL_BASE, q, e);
    InArena(m, first, h, p - HEADER);
    LaidClient(m, Poke(m, KERNEL_BASE, q, e), KERNEL_BASE, first, h, p - HEADER, q, WORD_SIZE);
  }

  lemma {:induction false} LoadZeros(m: seq<byte>, a: nat, n: nat)
    requires a + n <= |m| && forall j :: a <= j < a + n ==> m[j] == 0
    ensures LoadLE(m, a, n) == 0
    decreases n
  {
    if n > 0 {
      LoadZeros(m, a + 1, n - 1);
    }
  }

  lemma ZeroEntry(m: seq<byte>, t: nat, i: nat)
    requires Fits(m, t) && BytesAt(m, KERNEL_BASE, KERNEL_BASE + t, TABLE) == Zeros(TABLE)
    ensures Entry(m, t, i) == 0
  {
    if i < ENTRIES {
      forall j | t <= j < t + TABLE
        ensures m[j] == 0
      {
        assert m[j] == BytesAt(m, KERNEL_BASE, KERNEL_BASE + t, TABLE)[j - t];
      }
      LoadZeros(m, t + 8 * i, WORD_SIZE);
    }
  }

  lemma InArena(m: seq<byte>, first: nat, h: Heap, a: nat)
    requires Laid(m, KERNEL_BASE, first, h) && a in h.live
    ensures h.base <= a && a + h.live[a].size <= h.base + h.length
    ensures h.base + h.length <= KERNEL_BASE + |m|
    ensures HEADER + h.live[a].len <= h.live[a].size
    ensures KERNEL_BASE <= a
  {
    hide Linked, Sized;
    ChunkInside(h, Block(a, h.live[a].size));
  }

  /** A page-aligned block just handed out is a page of its own, outside every table. */
  lemma NewTable(m: seq<byte>, first: nat, h: Heap, h': Heap, node: map<Key, nat>, p: nat)
    requires Laid(m, KERNEL_BASE, first, h') && HandedOut(h, h', p, TABLE) && p % PAGE == 0
    requires h'.base == h.base && h'.length == h.length && AllOwned(h, node)
    requires |m| <= KERNEL_WINDOW
    ensures KERNEL_BASE <= p < KERNEL_BASE + KERNEL_WINDOW && Fits(m, p - KERNEL_BASE)
    ensures forall k :: k in node ==> node[k] != p - KERNEL_BASE
    ensures AllOwned(h', node) && Owned(h', p - KERNEL_BASE)
  {
    hide Laid, RoundUp;
    InArena(m, first, h', p - HEADER);
  }

  // ---------------------------------------------------------------- flags on user paths

  /** Entry q of a level lies on the path of some user address. */
  predicate UserSlot(level: nat, q: nat)
    requires 1 <= level <= 4
  {
    q / (KERNEL_BASE / Span(level)) != 1 && !(level == 2 && q == 0)
  }

  ghost predicate FlagOk(m: seq<byte>, node: map<Key, nat>, k: Key, i: nat)
    requires k in node
  {
    var e := Entry(m, node[k], i);
    2 <= k.level <= 4 && Present(e) && UserSlot(k.level, k.prefix * ENTRIES + i) ==>
      User(e) && Writable(e) && Leads(k.level, e) && e < KERNEL_BASE
  }

  ghost predicate Flags(m: seq<byte>, node: map<Key, nat>) {
    forall k, i: nat {:trigger FlagOk(m, node, k, i)} :: k in node && i < ENTRIES ==> FlagOk(m, node, k, i)
  }

  lemma UserPath(k: Key, i: nat, va: nat)
    requires 2 <= k.level <= 4 && OnPath(k, i, va) && UserRangeOk(va)
    ensures UserSlot(k.level, k.prefix * ENTRIES + i)
  {
    SpanUp(va, k.level);
  }

  lemma {:induction false} AncestorIn(m: seq<byte>, node: map<Key, nat>, k: Key, va: nat, level: nat)
    requires Tree(m, node) && k in node && k.prefix == va / Span(k.level + 1)
    requires 1 <= k.level <= level <= 4
    ensures Key(level, va / Span(level + 1)) in node
    decreases 4 - k.level
  {
    hide Span, SlotOk;
    if k.level < level {
      assert NodeOk(m, node, k);
      PathUp(k, va);
      AncestorIn(m, node, Parent(k), va, level);
    }
  }

  /** Above a table on a user path, every link is open to user code. */
  lemma UserOpen(m: seq<byte>, node: map<Key, nat>, k: Key, va: nat)
    requires Tree(m, node) && Flags(m, node) && UserRangeOk(va)
    requires k in node && 1 <= k.level && k.prefix == va / Span(k.level + 1)
    ensures Open(m, node, k, va)
  {
    hide Span, Entry, User, Writable, UserSlot, UserRangeOk, Slot;
    forall j, i: nat | j in node && j.level > k.level && OnPath(j, i, va)
      ensures User(Entry(m, node[j], i)) && Writable(Entry(m, node[j], i))
    {
      NodeLevel(m, node, j);
      SlotSmall(va, j.level);
      AncestorIn(m, node, k, va, j.level - 1);
      PathDown(j, va);
      assert SlotOk(m, node, j, i);
      assert FlagOk(m, node, j, i);
      UserPath(j, i, va);
    }
  }

  lemma SlotSmall(va: nat, level: nat)
    ensures Slot(va, level) < ENTRIES
  {
  }

  // ---------------------------------------------------------------- the map the tables stand for

  /** What a user page goes to. */
  datatype Leaf = Leaf(frame: nat, user: bool, writable: bool)

  function LeafOf(paddr: nat, prot: nat): Leaf {
    var e := LeafEntry(paddr, prot);
    Leaf(Frame(e), User(e), Writable(e))
  }

  function Lookup(pages: map<nat, Leaf>, va: nat): Translation {
    if va / TABLE in pages
    then var l := pages[va / TABLE]; Mapped(l.frame + va % TABLE, l.user, l.writable)
    else Unmapped
  }

  /** The table walk sends every address of the user range where the map says; the canonical ones,
      below 2^47, are those the processor walks the tables for. */
  ghost predicate Refines(m: seq<byte>, root: nat, pages: map<nat, Leaf>) {
    forall va: nat {:trigger Translate(m, root, va)} :: UserRangeOk(va) ==> Translate(m, root, va) == Lookup(pages, va)
  }

  /** The kernel's own view: its window on the first GiB, and the boot page, both closed to
      user code. */
  ghost predicate KernelMapped(m: seq<byte>, root: nat) {
    && (forall va: nat {:trigger Translate(m, root, va)} :: 0x80_0000_0000 <= va < 0x80_4000_0000 ==>
          Translate(m, root, va) == Mapped(va - 0x80_0000_0000, false, true))
    && (forall x: nat {:trigger Translate(m, root, x)} :: x < 0x20_0000 ==>
          Translate(m, root, x) == Mapped(x, false, true))
  }

  ghost predicate Tables(m: seq<byte>, root: nat, h: Heap, node: map<Key, nat>) {
    && Tree(m, node) && node[ROOT] == root
    && AllOwned(h, node)
    && Flags(m, node)
  }

  /** Two memories translate every address outside page `page` alike. */
  ghost predicate SameOutside(m: seq<byte>, m': seq<byte>, root: nat, page: nat) {
    forall va: nat {:trigger Translate(m', root, va)} :: va < LINEAR_LIMIT && va / TABLE != page ==>
      Translate(m', root, va) == Translate(m, root, va)
  }

  ghost predicate SameEverywhere(m: seq<byte>, m': seq<byte>, root: nat) {
    forall va: nat {:trigger Translate(m', root, va)} :: va < LINEAR_LIMIT ==>
      Translate(m', root, va) == Translate(m, root, va)
  }

  /** If no entry of a table changed, neither did the tree nor any translation. */
  lemma NothingChanged(m: seq<byte>, m': seq<byte>, root: nat, h: Heap, h': Heap, node: map<Key, nat>)
    requires Tables(m, root, h, node) && |m'| == |m|
    requires forall k, i: nat :: k in node ==> Entry(m', node[k], i) == Entry(m, node[k], i)
    requires AllOwned(h', node)
    ensures Tables(m', root, h', node)
    ensures SameEverywhere(m, m', root)
  {
    hide Entry, Frame, Leads, Span, Owned, User, Writable, Present, UserSlot;
    forall k | k in node
      ensures NodeOk(m', node, k)
    {
      assert NodeOk(m, node, k);
    }
    forall k, i: nat | k in node && i < ENTRIES
      ensures SlotOk(m', node, k, i) && FlagOk(m', node, k, i)
    {
      assert SlotOk(m, node, k, i) && FlagOk(m, node, k, i);
    }
    forall va: nat | va < LINEAR_LIMIT
      ensures Translate(m', root, va) == Translate(m, root, va)
    {
      RootPrefix(va);
      WalkAgrees(m, m', node, ROOT, va, true, true);
    }
  }

  lemma RootPrefix(va: nat)
    requires va < LINEAR_LIMIT
    ensures va / Span(5) == 0
  {
  }

  /** Allocating or freeing other blocks never changes a translation. */
  lemma AllocatorKeepsTables(m: seq<byte>, m': seq<byte>, root: nat, h: Heap, h': Heap, node: map<Key, nat>)
    requires Tables(m, root, h, node) && Wf(h) && AllOwned(h', node)
    requires Keeps(m, m', KERNEL_BASE, h)
    ensures Tables(m', root, h', node) && SameEverywhere(m, m', root)
  {
    hide Wf, Tree, Flags, Keeps, Owned, Entry, SameEverywhere;
    TablesKept(m, m', h, node);
    SizeKept(m, m', KERNEL_BASE, h);
    NothingChanged(m, m', root, h, h', node);
  }

  /** The leaf entry of va's page. */
  lemma LeafWritten(m: seq<byte>, m': seq<byte>, root: nat, h: Heap, node: map<Key, nat>, k: Key, va: nat, e: nat)
    requires Tables(m, root, h, node) && UserRangeOk(va)
    requires k in node && k.level == 1 && k.prefix == va / Span(2)
    requires EntrySet(m, m', node, k, Slot(va, 1), e)
    ensures Tables(m', root, h, node)
    ensures SameOutside(m, m', root, va / TABLE)
    ensures forall x: nat {:trigger Translate(m', root, x)} :: x / TABLE == va / TABLE ==>
      Translate(m', root, x) == Resolve(1, e, x, true, true)
  {
    hide Entry, Frame, Leads, User, Writable, Present, UserSlot, Resolve, SlotOk, NodeOk;
    var i := Slot(va, 1);
    LeafKeepsTree(m, m', node, k, i, e);
    forall j, x: nat | j in node && x < ENTRIES
      ensures FlagOk(m', node, j, x)
    {
      assert FlagOk(m, node, j, x);
    }
    forall x: nat | x < LINEAR_LIMIT && x / TABLE != va / TABLE
      ensures Translate(m', root, x) == Translate(m, root, x)
    {
      OtherPage(k, va, x);
      OtherWalks(m, m', node, k, i, e, x);
    }
    forall x: nat | x / TABLE == va / TABLE
      ensures Translate(m', root, x) == Resolve(1, e, x, true, true)
    {
      SamePage(va, x);
      UserOpen(m', node, k, x);
      LeafDecides(m', node, k, x);
    }
  }

  lemma OtherPage(k: Key, va: nat, x: nat)
    requires k.level == 1 && k.prefix == va / Span(2) && x / TABLE != va / TABLE
    ensures !OnPath(k, Slot(va, 1), x)
  {
    SpanUp(va, 1);
    SpanUp(x, 1);
  }

  /** Everything about an address but its page offset is a function of its page. */
  lemma PageParts(va: nat)
    ensures va / LINEAR_LIMIT == va / TABLE / 0x10_0000_0000
    ensures va / KERNEL_BASE == va / TABLE / 0x800_0000
    ensures va >= LARGE_PAGE <==> va / TABLE >= 0x200
    ensures va / Span(2) == va / TABLE / ENTRIES && Slot(va, 1) == va / TABLE % ENTRIES
  {
  }

  lemma SamePage(va: nat, x: nat)
    requires x / TABLE == va / TABLE && UserRangeOk(va)
    ensures UserRangeOk(x) && x < LINEAR_LIMIT
    ensures x / Span(2) == va / Span(2) && Slot(x, 1) == Slot(va, 1)
  {
    PageParts(va);
    PageParts(x);
  }

  /** A missing table linked in: nothing changes but the tree. */
  lemma TableLinked(m: seq<byte>, m': seq<byte>, root: nat, h: Heap, node: map<Key, nat>, k: Key, i: nat, t: nat)
    requires Tables(m, root, h, node) && k in node && k.level > 1 && i < ENTRIES
    requires !Present(Entry(m, node[k], i)) && t < KERNEL_WINDOW
    requires EntrySet(m, m', node, k, i, t + 7)
    requires Fits(m', t) && (forall x: nat :: Entry(m', t, x) == 0)
    requires Owned(h, t) && forall j :: j in node ==> node[j] != t
    ensures Tables(m', root, h, node[Child(k, i) := t])
    ensures Child(k, i) !in node
    ensures SameEverywhere(m, m', root)
  {
    hide Entry, Frame, Span, Leads, User, Writable, Owned, Large, UserSlot, Translate;
    TableEntry(t);
    NodeLevel(m, node, k);
    EntryLeads(k.level, t + 7);
    LinkEmptyTable(m, m', node, k, i, t + 7, t);
    RootStays(m, node, k, i, t);
    var node' := node[Child(k, i) := t];
    forall j, x: nat | j in node' && x < ENTRIES
      ensures FlagOk(m', node', j, x)
    {
      if j != Child(k, i) {
        assert FlagOk(m, node, j, x);
      }
    }
  }

  lemma EntryLeads(level: nat, e: nat)
    requires level > 1 && Present(e) && !Large(e)
    ensures Leads(level, e)
  {
  }
}
