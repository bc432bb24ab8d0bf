/** The kernel's memory manager put together: the allocator hands out the pages that the page
    tables are made of, and the table walk reads the result as a map of user pages. */
module KernelPaging {
  import opened ByteMemory
  import opened HeapModel
  import opened HeapRuns
  import opened ChunkList
  import opened Kmalloc
  import opened PageWalk
  import opened UserPaging
  import opened Boot
  import opened KernelRuns

  lemma FlagFits(e: nat, bit: nat)
    requires e < 0x1_0000_0000_0000_0000 && (bit == 1 || bit == 2 || bit == 4)
    ensures WithFlag(e, bit) < 0x1_0000_0000_0000_0000
  {
  }

  lemma LeafFits(paddr: word, prot: nat)
    ensures WithFlag(Without(paddr, KERNEL_BASE), PRESENT) < 0x1_0000_0000_0000_0000
    ensures LeafEntry(paddr, prot) < 0x1_0000_0000_0000_0000
    ensures
      var e := WithFlag(Without(paddr, KERNEL_BASE), PRESENT);
      WithFlag(e, USER) < 0x1_0000_0000_0000_0000 && WithFlag(e, RW) < 0x1_0000_0000_0000_0000
  {
    hide WithFlag, HasFlag;
    var e := WithFlag(Without(paddr, KERNEL_BASE), PRESENT);
    FlagFits(Without(paddr, KERNEL_BASE), PRESENT);
    FlagFits(e, USER);
    FlagFits(e, RW);
    FlagFits(WithFlag(e, USER), RW);
  }

  lemma LeafPresent(paddr: nat, prot: nat)
    ensures Present(LeafEntry(paddr, prot))
  {
  }

  /** The new leaf reads as the map's new page. */
  lemma LeafRead(pages: map<nat, Leaf>, va: nat, paddr: nat, prot: nat, x: nat)
    requires x / TABLE == va / TABLE
    ensures Resolve(1, LeafEntry(paddr, prot), x, true, true) == Lookup(pages[va / TABLE := LeafOf(paddr, prot)], x)
  {
    hide LeafEntry, User, Writable;
    LeafPresent(paddr, prot);
  }

  /** A user page is neither in the kernel window nor in the boot page. */
  lemma KernelKept(m: seq<byte>, m': seq<byte>, va: nat)
    requires KernelMapped(m, PML4) && SameOutside(m, m', PML4, va / TABLE) && UserRangeOk(va)
    ensures KernelMapped(m', PML4)
  {
    hide Translate;
    forall x: nat | KERNEL_BASE <= x < KERNEL_BASE + KERNEL_WINDOW
      ensures Translate(m', PML4, x) == Mapped(x - KERNEL_BASE, false, true)
    {
      NotUserPage(va, x);
      assert Translate(m, PML4, x) == Mapped(x - KERNEL_BASE, false, true);
    }
    forall x: nat | x < LARGE_PAGE
      ensures Translate(m', PML4, x) == Mapped(x, false, true)
    {
      NotUserPage(va, x);
      assert Translate(m, PML4, x) == Mapped(x, false, true);
    }
  }

  lemma NotUserPage(va: nat, x: nat)
    requires UserRangeOk(va) && !UserRangeOk(x)
    ensures x / TABLE != va / TABLE
  {
    if x / TABLE == va / TABLE {
      SamePage(va, x);
    }
  }

  lemma UserInRange(va: nat)
    requires UserRangeOk(va)
    ensures va < LINEAR_LIMIT
  {
  }

  lemma PageMapped(m: seq<byte>, m': seq<byte>, pages: map<nat, Leaf>, va: nat, paddr: nat, prot: nat)
    requires Refines(m, PML4, pages) && UserRangeOk(va)
    requires SameOutside(m, m', PML4, va / TABLE)
    requires forall x: nat {:trigger Translate(m', PML4, x)} :: x / TABLE == va / TABLE ==>
      Translate(m', PML4, x) == Resolve(1, LeafEntry(paddr, prot), x, true, true)
    ensures Refines(m', PML4, pages[va / TABLE := LeafOf(paddr, prot)])
  {
    hide Translate, LeafEntry, LeafOf, Resolve, UserRangeOk;
    forall x: nat | UserRangeOk(x)
      ensures Translate(m', PML4, x) == Lookup(pages[va / TABLE := LeafOf(paddr, prot)], x)
    {
      if x / TABLE == va / TABLE {
        LeafRead(pages, va, paddr, prot, x);
      } else {
        UserInRange(x);
        assert Translate(m, PML4, x) == Lookup(pages, x);
      }
    }
  }

  lemma StillRefines(m: seq<byte>, m': seq<byte>, pages: map<nat, Leaf>)
    requires Refines(m, PML4, pages) && KernelMapped(m, PML4) && SameEverywhere(m, m', PML4)
    ensures Refines(m', PML4, pages) && KernelMapped(m', PML4)
  {
    hide Translate, Lookup;
    forall x: nat | UserRangeOk(x)
      ensures Translate(m', PML4, x) == Lookup(pages, x)
    {
      assert Translate(m, PML4, x) == Lookup(pages, x);
    }
    forall x: nat | KERNEL_BASE <= x < KERNEL_BASE + KERNEL_WINDOW
      ensures Translate(m', PML4, x) == Mapped(x - KERNEL_BASE, false, true)
    {
      assert Translate(m, PML4, x) == Mapped(x - KERNEL_BASE, false, true);
    }
    forall x: nat | x < LARGE_PAGE
      ensures Translate(m', PML4, x) == Mapped(x, false, true)
    {
      assert Translate(m, PML4, x) == Mapped(x, false, true);
    }
  }

  lemma SameTwice(m: seq<byte>, m1: seq<byte>, m2: seq<byte>)
    requires SameEverywhere(m, m1, PML4) && SameEverywhere(m1, m2, PML4)
    ensures SameEverywhere(m, m2, PML4)
  {
    hide Translate;
    forall va: nat | va < LINEAR_LIMIT
      ensures Translate(m2, PML4, va) == Translate(m, PML4, va)
    {
      assert Translate(m1, PML4, va) == Translate(m, PML4, va);
    }
  }

  lemma SameThenOutside(m: seq<byte>, m1: seq<byte>, m2: seq<byte>, page: nat)
    requires SameOutside(m, m1, PML4, page) && SameOutside(m1, m2, PML4, page)
    ensures SameOutside(m, m2, PML4, page)
  {
    hide Translate;
    forall va: nat | va < LINEAR_LIMIT && va / TABLE != page
      ensures Translate(m2, PML4, va) == Translate(m, PML4, va)
    {
      assert Translate(m1, PML4, va) == Translate(m, PML4, va);
    }
  }

  lemma EverywhereOutside(m: seq<byte>, m': seq<byte>, page: nat)
    requires SameEverywhere(m, m', PML4)
    ensures SameOutside(m, m', PML4, page)
  {
  }

  lemma SameItself(m: seq<byte>)
    ensures SameEverywhere(m, m, PML4)
  {
  }

  lemma TableFacts(m: seq<byte>, h: Heap, node: map<Key, nat>, k: Key, i: nat)
    requires Tables(m, PML4, h, node) && k in node && i < ENTRIES
    ensures Fits(m, node[k]) && node[k] + 8 * i + WORD_SIZE <= |m| && Owned(h, node[k])
    ensures Entry(m, node[k], i) == Word(m, node[k] + 8 * i)
    ensures FlagOk(m, node, k, i) && SlotOk(m, node, k, i)
  {
    hide Word, SlotOk, FlagOk, Owned;
    assert NodeOk(m, node, k);
  }

  /** A present entry on a user path holds the next table's address, open to user code. */
  lemma LinkFollowed(m: seq<byte>, h: Heap, node: map<Key, nat>, k: Key, i: nat)
    requires Tables(m, PML4, h, node) && k in node && i < ENTRIES && 2 <= k.level <= 4
    requires |m| <= KERNEL_WINDOW
    requires UserSlot(k.level, k.prefix * ENTRIES + i) && Present(Entry(m, node[k], i))
    ensures User(Entry(m, node[k], i)) && Entry(m, node[k], i) < KERNEL_BASE
    ensures Child(k, i) in node && node[Child(k, i)] == Frame(Entry(m, node[k], i))
    ensures Frame(Entry(m, node[k], i)) % TABLE == 0 && Frame(Entry(m, node[k], i)) < KERNEL_WINDOW
  {
    hide Entry, Word, UserSlot, Leads, Span, User, Writable, Present, Large;
    TableFacts(m, h, node, k, i);
    NodeLevel(m, node, Child(k, i));
  }

  /** The pointer a present entry leads to, as the C code computes it. */
  lemma NextPointer(e: nat)
    requires Frame(e) % TABLE == 0 && e < 0x80_0000_0000
    ensures WithFlag(e - e % TABLE, KERNEL_BASE) == KERNEL_BASE + Frame(e)
  {
  }

  lemma PhysicalIs(p: nat)
    requires KERNEL_BASE <= p < KERNEL_BASE + KERNEL_WINDOW
    ensures Physical(p) == Some(p - KERNEL_BASE)
  {
    assert p / KERNEL_BASE == 1;
  }

  /** The allocator made a table page: the old tables are untouched, the new page is blank. */
  lemma TableAllocated(m: seq<byte>, m': seq<byte>, first: nat, h: Heap, h': Heap, node: map<Key, nat>, p: nat)
    requires Tables(m, PML4, h, node) && Wf(h)
    requires Laid(m', KERNEL_BASE, first, h') && Keeps(m, m', KERNEL_BASE, h)
    requires HandedOut(h, h', p, TABLE) && p % PAGE == 0
    requires (h', p) == HeapModel.Kmalloc(h, TABLE, PAGE)
    requires Views(m', KERNEL_BASE, h'.live) == Views(m, KERNEL_BASE, h.live)[p - HEADER := Zeros(TABLE)]
    requires |m'| <= KERNEL_WINDOW
    ensures KERNEL_BASE <= p < KERNEL_BASE + KERNEL_WINDOW
    ensures
      var t := p - KERNEL_BASE;
      && Fits(m', t) && (forall x: nat :: Entry(m', t, x) == 0)
      && Owned(h', t) && (forall j :: j in node ==> node[j] != t)
    ensures Tables(m', PML4, h', node) && SameEverywhere(m, m', PML4)
    ensures forall k, i: nat :: k in node ==> Entry(m', node[k], i) == Entry(m, node[k], i)
  {
    hide Wf, Laid, Keeps, Owned, Entry, Tree, Flags, SameEverywhere, HeapModel.Kmalloc, RoundUp;
    SameArena(h, TABLE, PAGE);
    NewTable(m', first, h, h', node, p);
    AllocatorKeepsTables(m, m', PML4, h, h', node);
    TablesKept(m, m', h, node);
    var t := p - KERNEL_BASE;
    assert p - HEADER in h'.live && h'.live[p - HEADER].len == TABLE;
    assert Views(m', KERNEL_BASE, h'.live)[p - HEADER] == BytesAt(m', KERNEL_BASE, p, TABLE);
    forall x: nat
      ensures Entry(m', t, x) == 0
    {
      ZeroEntry(m', t, x);
    }
  }

  /** The entry that links it in changes no translation. */
  lemma TableInstalled(m: seq<byte>, m': seq<byte>, h: Heap, node: map<Key, nat>, k: Key, i: nat, t: nat)
    requires Tables(m, PML4, h, node) && k in node && k.level > 1 && i < ENTRIES
    requires !Present(Entry(m, node[k], i)) && t < KERNEL_WINDOW
    requires Fits(m, t) && (forall x: nat :: Entry(m, t, x) == 0)
    requires Owned(h, t) && (forall j :: j in node ==> node[j] != t)
    requires node[k] + 8 * i + WORD_SIZE <= |m| && m' == SetWord(m, node[k] + 8 * i, t + 7)
    ensures Tables(m', PML4, h, node[Child(k, i) := t]) && Child(k, i) !in node
    ensures SameEverywhere(m, m', PML4)
  {
    hide Entry, Tree, Flags, Owned, Word, SetWord, Present, SameEverywhere;
    StoreSetsEntry(m, m', node, k, i, t + 7);
    TableFacts(m, h, node, k, i);
    forall x: nat
      ensures Entry(m', t, x) == 0
    {
      WordInTable(m, m', t, node[k], t + 7, i, x);
    }
    TableLinked(m, m', PML4, h, node, k, i, t);
  }

  /** How a call ends: it returns, or panics in one of the three places of the C code. */
  datatype Ending = Done | NotAllowed | InvalidAddress | NonKernelPointer

  /** The new table and the entry that links it in leave every other block alone. */
  lemma TableJoined(m: seq<byte>, m1: seq<byte>, m2: seq<byte>, first: nat, h: Heap, h1: Heap, node: map<Key, nat>, k: Key, i: nat, p: nat)
    requires HandedOut(h, h1, p, TABLE) && Laid(m1, KERNEL_BASE, first, h1) && p >= KERNEL_BASE
    requires Views(m1, KERNEL_BASE, h1.live) == Views(m, KERNEL_BASE, h.live)[p - HEADER := Zeros(TABLE)]
    requires k in node && Child(k, i) !in node && Owned(h1, node[k]) && Fits(m1, node[k]) && i < ENTRIES
    requires p - KERNEL_BASE + 7 < 0x1_0000_0000_0000_0000
    requires m2 == Poke(m1, KERNEL_BASE, KERNEL_BASE + node[k] + 8 * i, p - KERNEL_BASE + 7)
    ensures Undisturbed(Views(m, KERNEL_BASE, h.live), node, Views(m2, KERNEL_BASE, h1.live), node[Child(k, i) := p - KERNEL_BASE])
  {
    hide Laid, Views, Zeros, Owned, Poke, Undisturbed, HandedOut;
    var c, node' := Views(m, KERNEL_BASE, h.live), node[Child(k, i) := p - KERNEL_BASE];
    NewKey(m, h, h1, p, TABLE);
    TableMade(c, node, Child(k, i), p, Zeros(TABLE));
    TableWritten(m1, m2, first, h1, node', k, i, p - KERNEL_BASE + 7);
    UndisturbedTwice(c, node, Views(m1, KERNEL_BASE, h1.live), node', Views(m2, KERNEL_BASE, h1.live), node');
  }

  class PageTables {
    const ram: Ram
    const arena: Arena
    ghost var node: map<Key, nat>
    ghost var pages: map<nat, Leaf>

    /** The tables form a tree, and the allocator that feeds them is sound. */
    ghost predicate Struct()
      reads this`node, ram, arena
    {
      && arena.ram == ram && ram.origin == KERNEL_BASE && |ram.bytes| == MEM_SIZE
      && arena.Valid()
      && Tables(ram.bytes, PML4, arena.heap, node)
    }

    ghost predicate Valid()
      reads this, ram, arena
    {
      Struct() && Refines(ram.bytes, PML4, pages) && KernelMapped(ram.bytes, PML4)
    }

    /** Boot: the hypervisor's tables, the kernel window, and an arena over the second 2 MiB. */
    constructor (ram: Ram)
      requires ram.origin == KERNEL_BASE && Blank(ram.bytes)
      modifies ram
      ensures Valid() && pages == map[] && this.ram == ram
      ensures arena.heap == Init(0x80_0020_0000, 0x20_0000)
    {
      hide Wf, Good, Laid, Blank, Booted, Tree, Flags, Refines, KernelMapped, BootNode, Owned;
      this.ram := ram;
      arena := new Arena(ram);
      node := BootNode();
      pages := map[];
      new;
      BlankSize(ram.bytes);
      SetupPaging(ram);
      InitPagetable(ram);
      BootSize(ram.bytes);
      BootTree(ram.bytes);
      BootMaps(ram.bytes);
      BootOwned();
      var ok := arena.InitAllocator(KERNEL_BASE + PS_LIMIT, MEM_SIZE - PS_LIMIT);
    }

    /** One PAGING step: follow entry i of table k, making the next table if there is none.
        The entry is never one that is closed to user code. */
    method Paging(ghost k: Key, i: nat, table: nat) returns (end: Ending, next: nat)
      requires Struct() && k in node && 2 <= k.level <= 4 && i < ENTRIES
      requires table == KERNEL_BASE + node[k]
      requires UserSlot(k.level, k.prefix * ENTRIES + i)
      modifies this`node, arena, ram
      ensures Struct()
      ensures SameEverywhere(old(ram.bytes), ram.bytes, PML4)
      ensures forall j :: j in old(node) ==> j in node && node[j] == old(node)[j]
      ensures Undisturbed(old(arena.Contents()), old(node), arena.Contents(), node)
      ensures end.Done? || end.NonKernelPointer?
      ensures end.Done? ==> Child(k, i) in node && next == KERNEL_BASE + node[Child(k, i)]
      ensures end.NonKernelPointer? ==> HeapModel.Kmalloc(arena.heap, TABLE, PAGE).1 == 0
    {
      hide Wf, Shape, Laid, Keeps, Tables, Tree, Flags, Owned, Entry, Word, SetWord, Poke, SameEverywhere, UserSlot, HeapModel.Kmalloc,
        WithFlag, Frame, Leads, HandedOut, Undisturbed, Views, Zeros;
      ghost var m, h, c := ram.bytes, arena.heap, arena.Contents();
      SameItself(m);
      UndisturbedItself(c, node);
      TableFacts(m, h, node, k, i);
      var p := table + 8 * i;
      var e := ram.LoadWord(p);
      if !HasFlag(e, PRESENT) {
        var r := arena.Kmalloc(TABLE, PAGE);
        ghost var m1, h1 := ram.bytes, arena.heap;
        SizeKept(m, m1, KERNEL_BASE, h);
        if r.ptr != 0 {
          TableAllocated(m, m1, arena.binNext, h, h1, node, r.ptr);
          PhysicalIs(r.ptr);
        }
        var phys := Physical(r.ptr);
        if phys.None? {
          TablesOwned(m, h, node);
          AllocatorKeepsTables(m, m1, PML4, h, h, node);
          return NonKernelPointer, 0;
        }
        var t := phys.value;
        TableFacts(m1, h1, node, k, i);
        TableStoreLaid(m1, arena.binNext, h1, node[k], i, t + 7);
        ram.StoreWord(p, PRESENT + RW + USER + t);
        TableInstalled(m1, ram.bytes, h1, node, k, i, t);
        SameTwice(m, m1, ram.bytes);
        TableJoined(m, m1, ram.bytes, arena.binNext, h, h1, node, k, i, r.ptr);
        node := node[Child(k, i) := t];
        return Done, r.ptr;
      }
      LinkFollowed(m, h, node, k, i);
      if !HasFlag(e, USER) {
        return InvalidAddress, 0;
      }
      NextPointer(e);
      return Done, WithFlag(e - e % TABLE, KERNEL_BASE);
    }

    /** pt[PTOFF(va)] = e: the page of va, and nothing else, now goes where e says. */
    method StoreLeaf(ghost k: Key, table: nat, va: nat, e: word)
      requires Struct() && UserRangeOk(va)
      requires k in node && k.level == 1 && k.prefix == va / Span(2) && table == KERNEL_BASE + node[k]
      modifies ram
      ensures Struct()
      ensures SameOutside(old(ram.bytes), ram.bytes, PML4, va / TABLE)
      ensures forall x: nat {:trigger Translate(ram.bytes, PML4, x)} :: x / TABLE == va / TABLE ==>
        Translate(ram.bytes, PML4, x) == Resolve(1, e, x, true, true)
      ensures Undisturbed(old(arena.Contents()), node, arena.Contents(), node)
      ensures InMemory(ram.bytes, KERNEL_BASE, table + 8 * Slot(va, 1))
      ensures Word(ram.bytes, table + 8 * Slot(va, 1) - KERNEL_BASE) == e
    {
      hide Wf, Shape, Laid, Tables, Tree, Flags, Owned, Entry, Word, SetWord, Poke, UserRangeOk, SameOutside, Resolve, Slot,
        Undisturbed, Views;
      ghost var m := ram.bytes;
      var i := Slot(va, 1);
      TableFacts(m, arena.heap, node, k, i);
      TableStoreLaid(m, arena.binNext, arena.heap, node[k], i, e);
      ram.StoreWord(table + 8 * i, e);
      TablesTree(m, arena.heap, node);
      StoreSetsEntry(m, ram.bytes, node, k, i, e);
      LeafWritten(m, ram.bytes, PML4, arena.heap, node, k, va, e);
      TableWritten(m, ram.bytes, arena.binNext, arena.heap, node, k, i, e);
    }

    /** PAGING at one level of the path of a user address. */
    method Descend(vaddr: word, level: nat, table: nat) returns (end: Ending, next: nat)
      requires Valid() && UserRangeOk(vaddr) && 2 <= level <= 4
      requires Key(level, vaddr / Span(level + 1)) in node && table == KERNEL_BASE + node[Key(level, vaddr / Span(level + 1))]
      modifies this`node, arena, ram
      ensures Valid() && SameEverywhere(old(ram.bytes), ram.bytes, PML4)
      ensures Undisturbed(old(arena.Contents()), old(node), arena.Contents(), node)
      ensures end.Done? || end.NonKernelPointer?
      ensures end.Done? ==>
        Key(level - 1, vaddr / Span(level)) in node && next == KERNEL_BASE + node[Key(level - 1, vaddr / Span(level))]
      ensures end.NonKernelPointer? ==> HeapModel.Kmalloc(arena.heap, TABLE, PAGE).1 == 0
    {
      hide Wf, Shape, Laid, Tables, Refines, KernelMapped, SameEverywhere, UserRangeOk, UserSlot, Span, Slot, HeapModel.Kmalloc,
        Undisturbed;
      ghost var m, k := ram.bytes, Key(level, vaddr / Span(level + 1));
      SlotSmall(vaddr, level);
      UserPath(k, Slot(vaddr, level), vaddr);
      PathDown(k, vaddr);
      end, next := Paging(k, Slot(vaddr, level), table);
      StillRefines(m, ram.bytes, pages);
    }

    /** The leaf of va's page: the frame, then one flag after the other. */
    method WriteLeaf(ghost k: Key, pt: nat, vaddr: word, paddr: word, prot: nat)
      requires Struct() && UserRangeOk(vaddr)
      requires k in node && k.level == 1 && k.prefix == vaddr / Span(2) && pt == KERNEL_BASE + node[k]
      modifies ram
      ensures Struct() && SameOutside(old(ram.bytes), ram.bytes, PML4, vaddr / TABLE)
      ensures Undisturbed(old(arena.Contents()), node, arena.Contents(), node)
      ensures forall x: nat {:trigger Translate(ram.bytes, PML4, x)} :: x / TABLE == vaddr / TABLE ==>
        Translate(ram.bytes, PML4, x) == Resolve(1, LeafEntry(paddr, prot), x, true, true)
    {
      hide Wf, Shape, Laid, Tables, SameOutside, UserRangeOk, Span, Resolve, Slot, Word, WithFlag, Without, HasFlag,
        Undisturbed, Views;
      ghost var m, page, c := ram.bytes, vaddr / TABLE, arena.Contents();
      LeafFits(paddr, prot);
      var e := WithFlag(Without(paddr, KERNEL_BASE), PRESENT);
      StoreLeaf(k, pt, vaddr, e);
      if HasFlag(prot, PROT_R) {
        ghost var before, c1 := ram.bytes, arena.Contents();
        e := ram.LoadWord(pt + 8 * Slot(vaddr, 1));
        StoreLeaf(k, pt, vaddr, WithFlag(e, USER));
        SameThenOutside(m, before, ram.bytes, page);
        UndisturbedTwice(c, node, c1, node, arena.Contents(), node);
      }
      if HasFlag(prot, PROT_W) {
        ghost var before, c1 := ram.bytes, arena.Contents();
        e := ram.LoadWord(pt + 8 * Slot(vaddr, 1));
        StoreLeaf(k, pt, vaddr, WithFlag(e, RW));
        SameThenOutside(m, before, ram.bytes, page);
        UndisturbedTwice(c, node, c1, node, arena.Contents(), node);
      }
    }

    /** Map one user page. The call panics on a bad address, and on an exhausted arena; an entry
        closed to user code is never met. After a panic the page map stands as it was. */
    method AddTransUser(vaddr: word, paddr: word, prot: nat) returns (end: Ending)
      requires Valid()
      modifies this, arena, ram
      ensures Valid()
      ensures end.NotAllowed? <==>
        vaddr < 0x20_0000 || vaddr >= 0x1_0000_0000_0000 || 0x80_0000_0000 <= vaddr < 0x100_0000_0000
      ensures !end.InvalidAddress?
      ensures end.NonKernelPointer? ==> HeapModel.Kmalloc(arena.heap, TABLE, PAGE).1 == 0
      ensures end.NotAllowed? ==> ram.bytes == old(ram.bytes)
      ensures end.Done? ==> pages == old(pages)[vaddr / TABLE := LeafOf(paddr, prot)]
      ensures end.Done? ==> forall x: nat {:trigger Translate(ram.bytes, PML4, x)} :: x / 0x1000 == vaddr / 0x1000 ==>
        Translate(ram.bytes, PML4, x) == Granted(paddr, prot, x)
      ensures !end.Done? ==> pages == old(pages) && SameEverywhere(old(ram.bytes), ram.bytes, PML4)
      ensures SameOutside(old(ram.bytes), ram.bytes, PML4, vaddr / TABLE)
      ensures Undisturbed(old(arena.Contents()), old(node), arena.Contents(), node)
    {
      hide Struct, Refines, KernelMapped, SameEverywhere, SameOutside, UserRangeOk, Span, Resolve, HeapModel.Kmalloc, LeafOf,
        LeafEntry, Granted, Undisturbed, Views;
      ghost var m, page, c, tables := ram.bytes, vaddr / TABLE, arena.Contents(), node;
      SameItself(m);
      EverywhereOutside(m, m, page);
      UndisturbedItself(c, tables);
      UserRangeIs(vaddr);
      if !UserRangeOk(vaddr) {
        return NotAllowed;
      }
      RootOnPath(vaddr);
      var pdp, pd, pt;
      end, pdp := Descend(vaddr, 4, KERNEL_BASE + PML4);
      ghost var m3, c3, node3 := ram.bytes, arena.Contents(), node;
      EverywhereOutside(m, m3, page);
      if end != Done {
        return;
      }
      end, pd := Descend(vaddr, 3, pdp);
      ghost var m2, c2, node2 := ram.bytes, arena.Contents(), node;
      SameTwice(m, m3, m2);
      UndisturbedTwice(c, tables, c3, node3, c2, node2);
      EverywhereOutside(m, m2, page);
      if end != Done {
        return;
      }
      end, pt := Descend(vaddr, 2, pd);
      ghost var m1, c1 := ram.bytes, arena.Contents();
      SameTwice(m, m2, m1);
      UndisturbedTwice(c, tables, c2, node2, c1, node);
      EverywhereOutside(m, m1, page);
      if end != Done {
        return;
      }
      WriteLeaf(Key(1, vaddr / Span(2)), pt, vaddr, paddr, prot);
      SameThenOutside(m, m1, ram.bytes, page);
      UndisturbedTwice(c, tables, c1, node, arena.Contents(), node);
      PageMapped(m1, ram.bytes, pages, vaddr, paddr, prot);
      PageGranted(ram.bytes, vaddr, paddr, prot);
      KernelKept(m1, ram.bytes, vaddr);
      pages := pages[page := LeafOf(paddr, prot)];
    }

    lemma RootOnPath(va: nat)
      requires Struct() && UserRangeOk(va)
      ensures Key(4, va / Span(5)) == ROOT && ROOT in node && node[ROOT] == PML4
    {
      hide Wf, Shape, Laid, Tree, Flags;
      RootNode(ram.bytes, arena.heap, node, va);
    }

    /** Any other allocation of the kernel's leaves every translation alone. */
    method AllocElsewhere(len: nat, align: nat) returns (r: Outcome)
      requires Valid()
      modifies arena, ram
      ensures Valid()
      ensures r.Panicked? <==> len < LIMIT && align != NO_ALIGN && align != PAGE
      ensures align == NO_ALIGN || align == PAGE ==>
        r.Returned? && (arena.heap, r.ptr) == HeapModel.Kmalloc(old(arena.heap), len, align)
      ensures SameEverywhere(old(ram.bytes), ram.bytes, PML4)
      ensures r.Panicked? || r.ptr == 0 ==> arena.Contents() == old(arena.Contents())
      ensures r.Returned? && r.ptr != 0 ==>
        && r.ptr >= HEADER && r.ptr - HEADER !in old(arena.Contents()) && (forall k :: k in node ==> KERNEL_BASE + node[k] != r.ptr)
        && arena.Contents() == old(arena.Contents())[r.ptr - HEADER := Zeros(len)]
    {
      hide Wf, Shape, Laid, Keeps, Tables, Refines, KernelMapped, SameEverywhere, HeapModel.Kmalloc, Owned, Views, Zeros, RoundUp;
      ghost var m, h := ram.bytes, arena.heap;
      r := arena.Kmalloc(len, align);
      SizeKept(m, ram.bytes, KERNEL_BASE, h);
      TablesOwned(m, h, node);
      if align == NO_ALIGN || align == PAGE {
        SameArena(h, len, align);
      }
      OwnedAfterAlloc(h, arena.heap, node, r.Returned? && r.ptr != 0, if r.Returned? then r.ptr else 0, len);
      AllocatorKeepsTables(m, ram.bytes, PML4, h, arena.heap, node);
      StillRefines(m, ram.bytes, pages);
      if r.Returned? && r.ptr != 0 {
        NewKey(m, h, arena.heap, r.ptr, len);
        BlockIsNew(ram.bytes, arena.binNext, h, arena.heap, node, r.ptr, len);
      }
    }

    /** So does freeing any block that is not a table. */
    method FreeElsewhere(mem: nat)
      requires Valid()
      requires mem == 0 || Freeable(arena.heap, mem)
      requires forall k :: k in node ==> mem != KERNEL_BASE + node[k]
      modifies arena, ram
      ensures Valid() && arena.heap == HeapModel.Kfree(old(arena.heap), mem)
      ensures SameEverywhere(old(ram.bytes), ram.bytes, PML4)
      ensures arena.Contents() == if mem == 0 then old(arena.Contents()) else old(arena.Contents()) - {mem - HEADER}
    {
      hide Wf, Shape, Laid, Keeps, Tables, Refines, KernelMapped, SameEverywhere, HeapModel.Kfree, Owned, Views;
      ghost var m, h := ram.bytes, arena.heap;
      var ok := arena.Kfree(mem);
      TablesOwned(m, h, node);
      OwnedAfterFree(h, node, mem);
      FreedTables(m, ram.bytes, h, arena.heap, node);
      SizeKept(m, ram.bytes, KERNEL_BASE, arena.heap);
      StillRefines(m, ram.bytes, pages);
    }

    /** Nor does a word that the kernel stores in a block of its own. */
    method StoreElsewhere(mem: nat, ghost data: seq<byte>, at: nat, v: word)
      requires Valid() && Private(arena.Contents(), node, mem, data) && at + WORD_SIZE <= |data|
      modifies ram
      ensures Valid() && SameEverywhere(old(ram.bytes), ram.bytes, PML4)
      ensures arena.Contents() == WrittenIn(old(arena.Contents()), mem - HEADER, at, v)
    {
      hide Wf, Shape, Laid, Keeps, Tables, Refines, KernelMapped, SameEverywhere, Owned, Poke, WrittenIn, BytesAt;
      ghost var m, h := ram.bytes, arena.heap;
      BlockLength(m, arena.binNext, h, mem - HEADER);
      arena.ClientStore(mem - HEADER, at, v);
      PrivateStored(m, ram.bytes, h, node, mem);
      SizeKept(m, ram.bytes, KERNEL_BASE, h.(live := h.live - {mem - HEADER}));
      StillRefines(m, ram.bytes, pages);
    }

    /** Any number of calls in a row. */
    method AddAll(calls: seq<Call>) returns (ok: bool)
      requires Valid()
      modifies this, arena, ram
      ensures Valid()
      ensures ok ==> pages == PagesAfter(old(pages), calls)
      ensures ok ==> LastCallsHold(old(ram.bytes), ram.bytes, calls)
    {
      hide Struct, KernelMapped, Refines, SameEverywhere, SameOutside, LeafOf, UserRangeOk, HeapModel.Kmalloc, Translate, Granted,
        LastCallsHold, Undisturbed;
      for n := 0 to |calls|
        invariant Valid()
        invariant pages == PagesAfter(old(pages), calls[..n])
      {
        var c := calls[n];
        var end := AddTransUser(c.vaddr, c.paddr, c.prot);
        if end != Done {
          return false;
        }
        assert calls[..n + 1][..n] == calls[..n];
      }
      assert calls[..|calls|] == calls;
      CallsTranslate(old(ram.bytes), ram.bytes, old(pages), calls);
      return true;
    }

    /** The kernel at work: pages mapped for the guest, and blocks of its own allocated, written
        and freed in between. Returns how many actions were completed, and the pointers it was
        given; the next action panicked, on a bad address, an exhausted arena or an unknown
        alignment. However far it got, the last completed call for a page decides what its
        addresses go to, every block held has what was written in it, and no other block is in use
        but those of before and the tables. */
    method Work(actions: seq<Action>) returns (n: nat, ptrs: seq<nat>)
      requires Valid() && Proper(actions)
      modifies this, arena, ram
      ensures Valid() && n <= |actions|
      ensures pages == PagesAfter(old(pages), Calls(actions[..n]))
      ensures LastCallsHold(old(ram.bytes), ram.bytes, Calls(actions[..n]))
      ensures Holding(old(arena.Contents()), arena.Contents(), node, ptrs, actions[..n])
      ensures Accounted(old(arena.Contents()), old(node), arena.Contents(), node, ptrs, actions[..n])
      ensures n < |actions| ==>
        match actions[n]
        case Map(c) =>
          || c.vaddr < 0x20_0000 || c.vaddr >= 0x1_0000_0000_0000 || 0x80_0000_0000 <= c.vaddr < 0x100_0000_0000
          || HeapModel.Kmalloc(arena.heap, TABLE, PAGE).1 == 0
        case Allocate(len, align) => len < LIMIT && align != NO_ALIGN && align != PAGE
        case _ => false
    {
      hide Struct, KernelMapped, Refines, SameEverywhere, SameOutside, LeafOf, UserRangeOk, HeapModel.Kmalloc, HeapModel.Kfree,
        Translate, Granted, LastCallsHold, Undisturbed, Private, Holding, Accounted, Held, Data, Calls, PagesAfter, WrittenIn, Views;
      ghost var m0, pages0, c0, node0 := ram.bytes, pages, arena.Contents(), node;
      n, ptrs := 0, [];
      NothingDone(c0, node0, pages0);
      while n < |actions|
        invariant n <= |actions| && Valid()
        invariant pages == PagesAfter(pages0, Calls(actions[..n]))
        invariant Holding(c0, arena.Contents(), node, ptrs, actions[..n])
        invariant Accounted(c0, node0, arena.Contents(), node, ptrs, actions[..n])
      {
        ghost var done, c, tables := actions[..n], arena.Contents(), node;
        OneMore(actions, n);
        CallsNext(pages0, done, actions[n]);
        match actions[n] {
          case Map(call) =>
            var end := AddTransUser(call.vaddr, call.paddr, call.prot);
            HoldingStill(c0, c, tables, arena.Contents(), node, ptrs, done);
            AccountedStill(c0, node0, c, tables, arena.Contents(), node, ptrs, done);
            if end != Done {
              break;
            }
            CallDone(c0, node0, arena.Contents(), node, ptrs, done, call);
          case Allocate(len, align) =>
            var r := AllocElsewhere(len, align);
            if r.Panicked? {
              break;
            }
            StartKept(c0, node0, c, node, ptrs, done);
            HoldingMore(c0, c, node, ptrs, done, len, align, r.ptr);
            AccountedMore(c0, node0, c, node, ptrs, done, len, align, r.ptr);
            ptrs := ptrs + [r.ptr];
          case Release(nth) =>
            HeldPrivate(c0, c, node, ptrs, done, nth);
            BlockKeys(arena.ram.bytes, arena.ram.origin, arena.heap.live);
            FreeElsewhere(ptrs[nth]);
            HoldingLess(c0, c, node, ptrs, done, nth);
            AccountedLess(c0, node0, c, node, ptrs, done, nth);
          case Store(nth, at, v) =>
            HeldPrivate(c0, c, node, ptrs, done, nth);
            if ptrs[nth] != 0 {
              StoreElsewhere(ptrs[nth], Data(done)[nth], at, v);
            }
            HoldingStored(c0, c, node, ptrs, done, nth, at, v);
            AccountedStored(c0, node0, c, node, ptrs, done, nth, at, v);
        }
        n := n + 1;
      }
      CallsTranslate(m0, ram.bytes, pages0, Calls(actions[..n]));
    }
  }

  // ---------------------------------------------------------------- what the calls amount to

  /** Of two memories, the second sends a user page where the last call for it says, and a page of
      no call where the first one does. */
  ghost predicate LastCallsHold(m: seq<byte>, m': seq<byte>, calls: seq<Call>) {
    forall va: nat {:trigger Translate(m', PML4, va)} ::
      0x20_0000 <= va < 0x1_0000_0000_0000 && !(0x80_0000_0000 <= va < 0x100_0000_0000) ==>
      Translate(m', PML4, va) ==
        match LastCall(calls, va / 0x1000)
        case None => Translate(m, PML4, va)
        case Some(c) => Granted(c.paddr, c.prot, va)
  }

  lemma CallsTranslate(m: seq<byte>, m': seq<byte>, pages: map<nat, Leaf>, calls: seq<Call>)
    requires Refines(m, PML4, pages) && Refines(m', PML4, PagesAfter(pages, calls))
    ensures LastCallsHold(m, m', calls)
  {
    hide LeafOf, UserRangeOk, Translate, Granted;
    forall va: nat | 0x20_0000 <= va < 0x1_0000_0000_0000 && !(0x80_0000_0000 <= va < 0x100_0000_0000)
      ensures Translate(m', PML4, va) ==
        match LastCall(calls, va / 0x1000)
        case None => Translate(m, PML4, va)
        case Some(c) => Granted(c.paddr, c.prot, va)
    {
      UserRangeIs(va);
      LastCallDecides(pages, calls, va / TABLE);
      if LastCall(calls, va / TABLE).Some? {
        var c := LastCall(calls, va / TABLE).value;
        GrantedIs(c.paddr, c.prot, va);
      }
      assert Translate(m, PML4, va) == Lookup(pages, va);
      assert Translate(m', PML4, va) == Lookup(PagesAfter(pages, calls), va);
    }
  }

  /** What an address and a protection ask for: the page of the address without its bit 39,
      readable by user code with bit 0 of prot and writable with bit 1. An address that is not
      page-aligned sets these two bits of the entry, 2 and 1, with its own. */
  function Granted(paddr: nat, prot: nat, va: nat): Translation {
    var p: nat := if paddr / 0x80_0000_0000 % 2 == 1 then paddr - 0x80_0000_0000 else paddr;
    Mapped(p / 0x1000 % 0x100_0000_0000 * 0x1000 + va % 0x1000,
      prot % 2 == 1 || paddr / 4 % 2 == 1, prot / 2 % 2 == 1 || paddr / 2 % 2 == 1)
  }

  lemma LeafParts(paddr: nat, prot: nat)
    ensures
      var l, e := LeafOf(paddr, prot), LeafEntry(paddr, prot);
      l.frame == Frame(e) && l.user == User(e) && l.writable == Writable(e)
  {
    hide LeafEntry;
  }

  lemma GrantedIs(paddr: nat, prot: nat, va: nat)
    ensures
      var l := LeafOf(paddr, prot);
      Granted(paddr, prot, va) == Mapped(l.frame + va % TABLE, l.user, l.writable)
  {
    hide LeafEntry, LeafOf;
    LeafParts(paddr, prot);
    LeafBits(paddr, prot);
  }

  lemma PageGranted(m: seq<byte>, va: nat, paddr: nat, prot: nat)
    requires forall x: nat {:trigger Translate(m, PML4, x)} :: x / TABLE == va / TABLE ==>
      Translate(m, PML4, x) == Resolve(1, LeafEntry(paddr, prot), x, true, true)
    ensures forall x: nat {:trigger Translate(m, PML4, x)} :: x / TABLE == va / TABLE ==>
      Translate(m, PML4, x) == Granted(paddr, prot, x)
  {
    hide Translate, LeafEntry, Granted;
    forall x: nat | x / TABLE == va / TABLE
      ensures Translate(m, PML4, x) == Granted(paddr, prot, x)
    {
      LeafPresent(paddr, prot);
      GrantedIs(paddr, prot, x);
      LeafRead(map[], va, paddr, prot, x);
    }
  }

  lemma NewKey(m: seq<byte>, h: Heap, h': Heap, p: nat, len: nat)
    requires HandedOut(h, h', p, len)
    ensures p >= HEADER && p - HEADER !in Views(m, KERNEL_BASE, h.live)
  {
    hide BytesAt;
  }

  /** A block just handed out is no table. */
  lemma BlockIsNew(m: seq<byte>, first: nat, h: Heap, h': Heap, node: map<Key, nat>, p: nat, len: nat)
    requires HandedOut(h, h', p, len) && AllOwned(h, node) && Laid(m, KERNEL_BASE, first, h')
    requires h'.base == h.base && h'.length == h.length
    ensures forall k :: k in node ==> KERNEL_BASE + node[k] != p
  {
    hide Wf, Linked, Sized, RoundUp;
    InArena(m, first, h', p - HEADER);
  }

  lemma BlockKeys(m: seq<byte>, o: nat, live: map<nat, Region>)
    ensures forall a :: a in Views(m, o, live) <==> a in live
  {
    hide BytesAt;
  }

  lemma BlockLength(m: seq<byte>, first: nat, h: Heap, a: nat)
    requires Laid(m, KERNEL_BASE, first, h) && a in Views(m, KERNEL_BASE, h.live)
    ensures a in h.live && h.live[a].len == |Views(m, KERNEL_BASE, h.live)[a]|
  {
    hide Laid;
    LiveChunk(m, KERNEL_BASE, first, h, a);
  }

  lemma OwnedAfterAlloc(h: Heap, h': Heap, node: map<Key, nat>, some: bool, p: nat, len: nat)
    requires AllOwned(h, node)
    requires if some then HandedOut(h, h', p, len) && h'.base == h.base && h'.length == h.length else h' == h
    ensures AllOwned(h', node)
  {
  }

  lemma OtherTable(m: seq<byte>, m': seq<byte>, h: Heap, p: nat, t: nat)
    requires Wf(h) && Owned(h, t) && KERNEL_BASE + t != p && p >= HEADER
    requires Keeps(m, m', KERNEL_BASE, h.(live := h.live - {p - HEADER})) && p - HEADER in h.live
    ensures PageSame(m, m', t)
  {
    hide Wf;
    LiveLens(h);
    var a, kept := KERNEL_BASE + t - HEADER, h.live - {p - HEADER};
    assert a in h.live && h.live[a].len == TABLE ==> a in kept && kept[a].size == h.live[a].size;
  }

  /** A write to a private block touches no table. */
  lemma PrivateStored(m: seq<byte>, m': seq<byte>, h: Heap, node: map<Key, nat>, p: nat)
    requires Tables(m, PML4, h, node) && Wf(h)
    requires p >= HEADER && p - HEADER in h.live && forall k :: k in node ==> KERNEL_BASE + node[k] != p
    requires Keeps(m, m', KERNEL_BASE, h.(live := h.live - {p - HEADER}))
    ensures Tables(m', PML4, h, node) && SameEverywhere(m, m', PML4)
  {
    hide Wf, Tree, Flags, Keeps, Owned, PageSame, Entry, SameEverywhere;
    forall k, i: nat | k in node
      ensures Entry(m', node[k], i) == Entry(m, node[k], i)
    {
      OtherTable(m, m', h, p, node[k]);
      EntriesSame(m, m', node[k], i);
    }
    SizeKept(m, m', KERNEL_BASE, h.(live := h.live - {p - HEADER}));
    NothingChanged(m, m', PML4, h, h, node);
  }

  lemma OwnedAfterFree(h: Heap, node: map<Key, nat>, mem: nat)
    requires Wf(h) && AllOwned(h, node) && (mem == 0 || Freeable(h, mem))
    requires forall k :: k in node ==> mem != KERNEL_BASE + node[k]
    ensures AllOwned(HeapModel.Kfree(h, mem), node)
  {
    hide Wf, HeapModel.InsertSorted;
  }

  /** Freeing keeps every block that stays handed out, tables included. */
  lemma FreedTables(m: seq<byte>, m': seq<byte>, h: Heap, h': Heap, node: map<Key, nat>)
    requires Tables(m, PML4, h, node) && Wf(h') && AllOwned(h', node)
    requires Keeps(m, m', KERNEL_BASE, h')
    ensures Tables(m', PML4, h', node) && SameEverywhere(m, m', PML4)
  {
    hide Wf, Tree, Flags, Keeps, Owned, Entry, SameEverywhere;
    TablesKept(m, m', h', node);
    SizeKept(m, m', KERNEL_BASE, h');
    NothingChanged(m, m', PML4, h, h', node);
  }

  lemma TablesTree(m: seq<byte>, h: Heap, node: map<Key, nat>)
    requires Tables(m, PML4, h, node)
    ensures Tree(m, node) && ROOT in node && node[ROOT] == PML4
  {
  }

  lemma RootNode(m: seq<byte>, h: Heap, node: map<Key, nat>, va: nat)
    requires Tables(m, PML4, h, node) && UserRangeOk(va)
    ensures ROOT in node && node[ROOT] == PML4 && va / Span(5) == 0
  {
  }

  lemma TablesOwned(m: seq<byte>, h: Heap, node: map<Key, nat>)
    requires Tables(m, PML4, h, node)
    ensures AllOwned(h, node)
  {
  }

  lemma BootOwned()
    ensures AllOwned(Init(KERNEL_BASE + PS_LIMIT, MEM_SIZE - PS_LIMIT), BootNode())
    ensures ROOT in BootNode() && BootNode()[ROOT] == PML4
  {
  }

  lemma BlankSize(m: seq<byte>)
    requires Blank(m)
    ensures |m| == MEM_SIZE
  {
  }

  lemma BootSize(m: seq<byte>)
    requires Booted(m)
    ensures |m| == MEM_SIZE
  {
  }
}
